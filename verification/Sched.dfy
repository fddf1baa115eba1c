/**
 The scheduler as it runs: task objects linked into a ring through next pointers, walked and
 relinked in place. Each method is proved to make the step of SchedModel.
 */
module Sched {
  import opened SchedModel

  class TaskObject {
    const pid: nat
    const parent: TaskObject?
    var next: TaskObject?
    var status: Status
    var code: int
    var wakeup: Tick

    constructor (pid: nat, parent: TaskObject?)
      ensures this.pid == pid && this.parent == parent && status == Running && code == 0 && wakeup == 0 && next == null
    {
      this.pid, this.parent := pid, parent;
      next, status, code, wakeup := null, Running, 0, 0;
    }

    ghost function Info(): Task
      reads this`status, this`code, this`wakeup
    {
      Task(pid, if parent == null then 0 else parent.pid, status, code, wakeup)
    }
  }

  ghost predicate Registered(byPid: map<nat, TaskObject>, t: TaskObject?)
  {
    t == null || (t.pid in byPid && byPid[t.pid] == t)
  }

  /** Pids name tasks uniquely, past and present, and the current task is on the ring. */
  ghost predicate NamedIn(byPid: map<nat, TaskObject>, nextPid: nat, ring: seq<TaskObject>, current: TaskObject?)
  {
    && (forall p :: p in byPid ==> p < nextPid)
    && (forall i :: 0 <= i < |ring| ==> Registered(byPid, ring[i]) && Registered(byPid, ring[i].parent))
    && (current == null || current in ring)
  }

  ghost function InsertTask(ring: seq<TaskObject>, t: TaskObject): seq<TaskObject>
  {
    if ring == [] then [t] else [ring[0], t] + ring[1..]
  }

  lemma InsertNamed(byPid: map<nat, TaskObject>, ring: seq<TaskObject>, current: TaskObject?, t: TaskObject)
    requires NamedIn(byPid, t.pid, ring, current) && (t.parent == null || t.parent == current)
    ensures NamedIn(byPid[t.pid := t], t.pid + 1, InsertTask(ring, t), current)
  {
    var r := InsertTask(ring, t);
    if current != null {
      var i :| 0 <= i < |ring| && ring[i] == current;
      assert r[if i == 0 then 0 else i + 1] == current;
    }
    forall i | 0 <= i < |r| ensures Registered(byPid[t.pid := t], r[i]) && Registered(byPid[t.pid := t], r[i].parent) {
      if i > 1 { assert r[i] == ring[i - 1]; }
    }
  }

  lemma RemoveNamed(byPid: map<nat, TaskObject>, nextPid: nat, ring: seq<TaskObject>, current: TaskObject?, i: nat)
    requires NamedIn(byPid, nextPid, ring, current) && i < |ring| && ring[i] != current
    ensures NamedIn(byPid, nextPid, ring[..i] + ring[i + 1..], current)
  {
    var r := ring[..i] + ring[i + 1..];
    forall j | 0 <= j < |r| ensures Registered(byPid, r[j]) && Registered(byPid, r[j].parent) {
      assert r[j] == ring[if j < i then j else j + 1];
    }
  }

  /** The scan stops at a running task, and otherwise goes on; back at the start it has seen them all. */
  lemma {:induction false} ScanStep(infos: seq<Task>, from: nat, d: nat, p: nat)
    requires from < |infos| && 1 <= d <= |infos| && p == Around(from + d, |infos|)
    ensures p < |infos| && FirstRunning(infos, from, d) ==
      if infos[p].status == Running then d else FirstRunning(infos, from, d + 1)
    ensures p == from <==> d == |infos|
    ensures d == |infos| && infos[p].status != Running ==> FirstRunning(infos, from, d) == |infos| + 1
  {
  }

  class Scheduler {
    var taskList: TaskObject?
    var current: TaskObject?
    var tick: Tick
    var nextPid: nat
    ghost var ring: seq<TaskObject>        // the tasks in next order, from taskList on
    ghost var infos: seq<Task>             // what they hold
    ghost var byPid: map<nat, TaskObject>  // every task ever created

    /** The next pointers form one simple cycle through exactly the tasks of the ring. */
    ghost predicate Linked()
      reads this`taskList, this`ring, ring`next
    {
      && taskList == (if ring == [] then null else ring[0])
      && (forall i :: 0 <= i < |ring| - 1 ==> ring[i].next == ring[i + 1])
      && (ring != [] ==> ring[|ring| - 1].next == ring[0])
      && (forall i, j :: 0 <= i < j < |ring| ==> ring[i] != ring[j])
    }

    ghost predicate Shown()
      reads this`ring, this`infos, ring`status, ring`code, ring`wakeup
    {
      |infos| == |ring| && forall i :: 0 <= i < |ring| ==> infos[i] == ring[i].Info()
    }

    ghost predicate Named()
      reads this`byPid, this`nextPid, this`ring, this`current
    {
      NamedIn(byPid, nextPid, ring, current)
    }

    ghost function View(): State
      reads this`infos, this`current, this`tick, this`nextPid
    {
      State(infos, if current == null then 0 else current.pid, tick, nextPid)
    }

    ghost predicate Valid()
      reads this, ring
    {
      Linked() && Shown() && Named() && Sound(View())
    }

    /** sched_init. */
    constructor ()
      ensures Valid() && View() == State([], 0, 0, 1)
    {
      taskList, current, tick, nextPid := null, null, 0, 1;
      ring, infos, byPid := [], [], map[];
      new;
      SoundIs(View());
    }

    /** The next pointer of the i-th task leads to the one after it, and from the last to the first. */
    lemma Follow(i: nat)
      requires Linked() && i < |ring|
      ensures ring[i].next == if i + 1 < |ring| then ring[i + 1] else ring[0]
    {
    }

    lemma Position(t: TaskObject) returns (i: nat)
      requires Valid() && t in ring
      ensures i < |ring| && ring[i] == t && IndexOf(infos, t.pid) == i
    {
      SoundIs(View());
      i :| 0 <= i < |ring| && ring[i] == t;
      IndexIsUnique(infos, i);
    }

    lemma StartPosition(start: TaskObject) returns (from: nat)
      requires Valid() && taskList != null && start == if current != null then current else taskList
      ensures from < |ring| && from == Start(View()) && ring[from] == start
    {
      if current != null {
        from := Position(current);
      } else {
        from := 0;
        SoundIs(View());
        assert forall i :: 0 <= i < |ring| ==> TaskOk(infos[i], nextPid);
      }
    }

    /** One step along the ring. */
    method NextOf(t: TaskObject, ghost p: nat) returns (u: TaskObject, ghost q: nat)
      requires Linked() && Shown() && p < |ring| && ring[p] == t
      ensures q == (if p + 1 < |ring| then p + 1 else 0) && u == ring[q] && infos[q] == u.Info()
      ensures forall k :: 0 <= k < |ring| && ring[k] == u ==> k == q
    {
      Follow(p);
      u := t.next;
      q := if p + 1 < |ring| then p + 1 else 0;
    }

    /** The ring walk of pick_next_task, once round from start. */
    method Scan(start: TaskObject, ghost from: nat) returns (t: TaskObject?, ghost d: nat)
      requires Linked() && Shown() && from < |ring| && ring[from] == start
      ensures d == FirstRunning(infos, from, 1)
      ensures t == null <==> d > |ring|
      ensures t != null ==> t == ring[Around(from + d, |ring|)]
    {
      ghost var n, p := |ring|, from;
      t := start;
      d := 0;
      while true
        invariant d < n && p < n && p == Around(from + d, n) && t == ring[p]
        invariant FirstRunning(infos, from, 1) == FirstRunning(infos, from, d + 1)
        decreases n - d
      {
        t, p := NextOf(t, p);
        d := d + 1;
        ScanStep(infos, from, d, p);
        if t.status == Running { return; }
        if t == start { return null, n + 1; }
      }
    }

    /** pick_next_task. */
    method PickNext() returns (t: TaskObject?)
      requires Valid()
      ensures t == null <==> Pick(View()) == 0
      ensures t != null ==> t in ring && t.pid == Pick(View())
    {
      if taskList == null { return null; }
      var start: TaskObject := if current != null then current else taskList;
      ghost var from := StartPosition(start);
      ghost var d;
      t, d := Scan(start, from);
      if t != null {
        SoundIs(View());
        assert TaskOk(infos[Around(from + d, |ring|)], nextPid);
      }
    }

    /** Running the picked task keeps the scheduler valid. */
    lemma Switched(s: State, pid: nat)
      requires Linked() && Shown() && Named() && Sound(s) && pid == Pick(s) && pid != 0 && View() == s.(current := pid)
      ensures Valid() && View() == Dispatch(s)
    {
      SoundIs(s);
      DispatchKeeps(s);
      SoundIs(View());
    }

    /** Picked tasks have a pid. */
    lemma PickedHasPid(t: TaskObject)
      requires Valid() && t in ring
      ensures t.pid != 0
    {
      SoundIs(View());
      var i := Position(t);
      assert TaskOk(infos[i], nextPid);
    }

    /** Make a task of the ring the current one, the one the scan picked. */
    method RunPicked(t: TaskObject)
      requires Valid() && t in ring && t.pid == Pick(View())
      modifies this`current
      ensures Valid() && View() == Dispatch(old(View()))
    {
      ghost var s := View();
      PickedHasPid(t);
      current := t;
      Switched(s, t.pid);
    }

    /** The end of a tick, an exit or a sleep: run the picked task, if any. */
    method SwitchToNext()
      requires Valid()
      modifies this`current
      ensures Valid() && View() == Dispatch(old(View()))
    {
      var t := PickNext();
      if t != null { RunPicked(t); }
    }

    /** Wake a task if it sleeps and is due. */
    method WakeOne(t: TaskObject, ghost i: nat)
      requires Linked() && Shown() && i < |ring| && ring[i] == t
      modifies this`infos, t`status
      ensures Linked() && Shown() && infos == old(infos)[i := Wake(old(infos)[i], tick)]
    {
      if t.status == Sleeping && t.wakeup <= tick { t.status := Running; }
      infos := infos[i := t.Info()];
    }

    /** The wake-up walk of sched_tick. */
    method WakeSleepers()
      requires Linked() && Shown() && ring != []
      modifies this`infos, ring`status
      ensures Linked() && Shown() && infos == WakeAll(old(infos), tick)
    {
      ghost var n, i := |ring|, 0;
      var t: TaskObject := taskList;
      while true
        invariant i < n && t == ring[i] && Linked() && Shown()
        invariant forall k :: 0 <= k < i ==> infos[k] == Wake(old(infos)[k], tick)
        invariant forall k :: i <= k < n ==> infos[k] == old(infos)[k]
        decreases n - i
      {
        WakeOne(t, i);
        Follow(i);
        var next: TaskObject := t.next;
        i := i + 1;
        if next == taskList { break; }
        t := next;
      }
      assert infos == WakeAll(old(infos), tick);
    }

    /** Counting a tick and waking sleepers keeps the scheduler valid. */
    lemma Advanced(s: State)
      requires Linked() && Shown() && Named() && Sound(s) && View() == Ticked(s)
      ensures Valid()
    {
      SoundIs(s);
      SameRingKeeps(s, Ticked(s));
      SoundIs(View());
    }

    /** The first half of sched_tick: count the tick and wake whoever is due. */
    method Advance()
      requires Valid()
      modifies this`tick, this`infos, ring`status
      ensures Valid() && View() == Ticked(old(View()))
    {
      ghost var s := View();
      tick := Plus(tick, 1);
      if taskList != null { WakeSleepers(); }
      assert infos == WakeAll(s.ring, tick);
      Advanced(s);
    }

    /** sched_tick. */
    method Tick()
      requires Valid()
      modifies this`tick, this`current, this`infos, ring`status
      ensures Valid() && View() == Step(old(View()), DoTick)
    {
      Advance();
      if taskList == null { return; }
      SwitchToNext();
    }

    /** The list insertion shared by task_create, task_create_elf and task_create_fork. */
    method Link(t: TaskObject)
      requires Linked() && t !in ring
      modifies this`taskList, this`ring, ring`next, t`next
      ensures Linked() && ring == InsertTask(old(ring), t)
    {
      if taskList == null {
        taskList := t;
        t.next := t;
        ring := [t];
      } else {
        ghost var before := ring;
        Follow(0);
        t.next := taskList.next;
        taskList.next := t;
        ring := [ring[0], t] + ring[1..];
        forall i | 0 <= i < |ring| - 1 ensures ring[i].next == ring[i + 1] {
          if i > 1 { assert ring[i] == before[i - 1] && before[i - 1].next == before[i - 1 + 1]; }
        }
      }
    }

    /** Link a task and note what it holds. */
    method Include(t: TaskObject)
      requires Linked() && Shown() && t !in ring
      modifies this`taskList, this`ring, this`infos, ring`next, t`next
      ensures Linked() && ring == InsertTask(old(ring), t)
      ensures Shown() && infos == Insert(old(infos), t.Info())
    {
      infos := Insert(infos, t.Info());
      Link(t);
    }

    /** task_create (no parent) and task_create_fork (parent is the current task); false when out of memory. */
    method AddTask(parent: TaskObject?, memory: bool) returns (ok: bool)
      requires Valid() && (parent == null || parent == current)
      modifies this, ring`next
      ensures Valid() && ok == memory
      ensures View() == if memory then Created(old(View()), if parent == null then 0 else parent.pid) else old(View())
      ensures current == old(current)
    {
      if !memory { return false; }
      var t := new TaskObject(nextPid, parent);
      nextPid := nextPid + 1;
      Enter(t);
      ok := true;
    }

    /** Linking a task behind a valid scheduler's first one, and registering it, keeps the scheduler valid. */
    lemma Entered(names: map<nat, TaskObject>, before: seq<TaskObject>, s: State, t: TaskObject, parent: nat)
      requires Linked() && Shown() && ring == InsertTask(before, t) && byPid == names[t.pid := t]
      requires nextPid == t.pid + 1
      requires NamedIn(names, t.pid, before, current) && Sound(s) && s.nextPid == t.pid && View() == Created(s, parent)
      requires (t.parent == null || t.parent == current) && parent == if t.parent == null then 0 else t.parent.pid
      ensures Valid()
    {
      SoundIs(s);
      CurrentBelowNext(s);
      CreateKeeps(s, parent);
      SoundIs(View());
      InsertNamed(names, before, current, t);
    }

    /** Register a new task and link it in. */
    method Enter(t: TaskObject)
      requires Linked() && Shown() && t !in ring && nextPid == t.pid + 1
      requires Sound(View().(nextPid := t.pid)) && NamedIn(byPid, t.pid, ring, current)
      requires (t.parent == null || t.parent == current) && t.status == Running && t.code == 0 && t.wakeup == 0
      modifies this`taskList, this`ring, this`infos, this`byPid, ring`next, t`next
      ensures Valid() && View() == Created(old(View()).(nextPid := t.pid), if t.parent == null then 0 else t.parent.pid)
    {
      ghost var s, parent := View().(nextPid := t.pid), if t.parent == null then 0 else t.parent.pid;
      ghost var names, before := byPid, ring;
      byPid := byPid[t.pid := t];
      Include(t);
      assert View() == Created(s, parent);
      Entered(names, before, s, t, parent);
    }

    /** Set a task's state fields. */
    method SetFields(t: TaskObject, status: Status, code: int, wakeup: Tick, ghost i: nat)
      requires Linked() && Shown() && i < |ring| && ring[i] == t
      modifies this`infos, t`status, t`code, t`wakeup
      ensures Linked() && Shown()
      ensures infos == old(infos)[i := old(infos)[i].(status := status, code := code, wakeup := wakeup)]
    {
      t.status, t.code, t.wakeup := status, code, wakeup;
      infos := infos[i := t.Info()];
    }

    /** Changing what tasks hold, but not who they are, keeps the scheduler valid. */
    lemma Marked(s: State)
      requires Linked() && Shown() && Named() && Sound(s) && SameRing(s.ring, infos)
      requires View() == s.(ring := infos)
      ensures Valid()
    {
      SoundIs(s);
      SameRingKeeps(s, View());
      SoundIs(View());
    }

    /** Set the current task's state fields. */
    method Mark(status: Status, code: int, wakeup: Tick, ghost i: nat)
      requires Valid() && current != null && i < |ring| && ring[i] == current
      modifies this`infos, current`status, current`code, current`wakeup
      ensures Valid() && infos == old(infos)[i := old(infos)[i].(status := status, code := code, wakeup := wakeup)]
    {
      ghost var s := View();
      SetFields(current, status, code, wakeup, i);
      Marked(s);
    }

    /** sched_exit_with; true when there was no task to exit, where the kernel panics. */
    method Exit(code: int) returns (panic: bool)
      requires Valid()
      modifies this`infos, this`current, ring`status, ring`code, ring`wakeup
      ensures Valid() && panic == (old(current) == null)
      ensures View() == if panic then old(View()) else Step(old(View()), DoExit(code))
    {
      if taskList == null || current == null { return true; }
      ghost var s := View();
      ghost var i := Position(current);
      Mark(Zombie, code, current.wakeup, i);
      assert View() == Before(s, DoExit(code));
      SwitchToNext();
      panic := false;
    }

    /** sched_sleep. */
    method Sleep(ticks: Tick)
      requires Valid()
      modifies this`infos, this`current, ring`status, ring`code, ring`wakeup
      ensures Valid()
      ensures View() == if old(current) == null then old(View()) else Step(old(View()), DoSleep(ticks))
    {
      if taskList == null || current == null { return; }
      ghost var s := View();
      ghost var i := Position(current);
      Mark(Sleeping, current.code, Plus(tick, ticks), i);
      assert View() == Before(s, DoSleep(ticks));
      SwitchToNext();
    }

    /** The walk of sched_wait: the first zombie child of the current task. */
    method FindChild() returns (t: TaskObject?, ghost i: nat)
      requires Linked() && Shown() && Named() && ring != [] && current != null && current.pid > 0
      ensures i == ZombieChild(infos, current.pid)
      ensures t == if i < |ring| then ring[i] else null
    {
      ghost var n := |ring|;
      i := 0;
      t := taskList;
      while true
        invariant i < n && t == ring[i]
        invariant ZombieChild(infos, current.pid) == i + ZombieChild(infos[i..], current.pid)
        decreases n - i
      {
        assert infos[i..][0] == infos[i] && infos[i..][1..] == infos[i + 1..];
        IsParent(t);
        if t.parent == current && t.status == Zombie { return; }
        Follow(i);
        t := t.next;
        i := i + 1;
        if t == taskList {
          assert i == n && infos[n..] == [];
          return null, n;
        }
      }
    }

    /** Comparing parent pointers is comparing pids. */
    lemma IsParent(t: TaskObject)
      requires Named() && t in ring && current != null && current.pid > 0
      ensures t.parent == current <==> t.Info().parent == current.pid
    {
      var k :| 0 <= k < |ring| && ring[k] == current;
      assert Registered(byPid, ring[k]);
    }

    /** The predecessor search of sched_wait. */
    method FindPrev(t: TaskObject, ghost i: nat) returns (prev: TaskObject)
      requires Linked() && i < |ring| && ring[i] == t
      ensures prev == ring[if i == 0 then |ring| - 1 else i - 1] && prev.next == t
    {
      ghost var target := if i == 0 then |ring| - 1 else i - 1;
      ghost var p := 0;
      prev := taskList;
      Follow(target);
      while prev.next != t
        invariant p <= target && prev == ring[p]
        decreases target - p
      {
        Follow(p);
        prev := prev.next;
        p := p + 1;
      }
      Follow(p);
    }

    /** The unlinking of sched_wait. */
    method Unlink(t: TaskObject, ghost i: nat)
      requires Linked() && i < |ring| && ring[i] == t
      modifies this`taskList, this`ring, ring`next
      ensures Linked() && ring == old(ring)[..i] + old(ring)[i + 1..]
    {
      var prev := FindPrev(t, i);
      Follow(i);
      prev.next := t.next;
      if taskList == t { taskList := t.next; }
      if taskList == t { taskList := null; }
      ghost var before := ring;
      ring := ring[..i] + ring[i + 1..];
      forall k | 0 <= k < |ring| ensures ring[k] == before[if k < i then k else k + 1] {}
      forall k | 0 <= k < |ring| - 1 ensures ring[k].next == ring[k + 1] {
        if k > i { assert before[k + 1].next == before[k + 2]; }
      }
    }

    /** The search and the reaping of sched_wait, with a current task. */
    method Collect() returns (code: int)
      requires Valid() && current != null && taskList != null
      modifies this`taskList, this`ring, this`infos, ring`next
      ensures Valid()
      ensures var i := ZombieChild(old(infos), current.pid);
        if i < |old(infos)| then code == old(infos)[i].code && View() == old(View()).(ring := Remove(old(infos), i))
        else code == -1 && View() == old(View())
    {
      CurrentPidPositive();
      var t, i := FindChild();
      if t == null { return -1; }
      code := t.code;
      Reap(t, i);
    }

    /** sched_wait: the exit code of a reaped child, or -1. */
    method Wait() returns (code: int)
      requires Valid()
      modifies this`taskList, this`ring, this`infos, ring`next
      ensures Valid()
      ensures old(current) == null ==> code == -1 && View() == old(View())
      ensures old(current) != null ==> View() == Step(old(View()), DoWait)
      ensures old(current) != null ==>
        var i := ZombieChild(old(infos), old(View()).current);
        code == if i < |old(infos)| then old(infos)[i].code else -1
    {
      if taskList == null || current == null { return -1; }
      code := Collect();
    }

    lemma CurrentPidPositive()
      requires Valid() && current != null
      ensures current.pid > 0
    {
      SoundIs(View());
      var j := Position(current);
      assert TaskOk(infos[j], nextPid);
    }

    /** Unlink a task and forget what it holds. */
    method Drop(t: TaskObject, ghost i: nat)
      requires Linked() && Shown() && i < |ring| && ring[i] == t
      modifies this`taskList, this`ring, this`infos, ring`next
      ensures Linked() && ring == old(ring)[..i] + old(ring)[i + 1..]
      ensures Shown() && infos == Remove(old(infos), i)
    {
      infos := Remove(infos, i);
      Unlink(t, i);
    }

    /** A valid scheduler without one task other than the current one is valid. */
    lemma Dropped(before: seq<TaskObject>, s: State, i: nat)
      requires Linked() && Shown() && NamedIn(byPid, nextPid, before, current) && Sound(s)
      requires i < |before| && i < |s.ring| && before[i] != current && s.ring[i].pid != s.current
      requires ring == before[..i] + before[i + 1..] && View() == s.(ring := Remove(s.ring, i))
      ensures Valid()
    {
      SoundIs(s);
      RemoveKeeps(s, i);
      SoundIs(View());
      RemoveNamed(byPid, nextPid, before, current, i);
    }

    /** Take a zombie child of the current task off the ring. */
    method Reap(t: TaskObject, ghost i: nat)
      requires Valid() && current != null && i < |ring| && ring[i] == t && infos[i].parent == current.pid
      modifies this`taskList, this`ring, this`infos, ring`next
      ensures Valid() && View() == old(View()).(ring := Remove(old(infos), i))
    {
      ghost var s, before := View(), ring;
      SoundIs(s);
      ChildIsNotCurrent(s, i);
      Drop(t, i);
      Dropped(before, s, i);
    }
  }
}

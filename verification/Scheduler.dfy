/**
 * The state of kernel/scheduler.c: two lists, the current task, and the steps that move
 * tasks between the lists (352-364, 374-382, 1353-1357, 2113-2134, 2155-2160, 2215-2343,
 * 2383-2417, 2666-2679), for tasks without the real-time priority.
 */
module Scheduler {
  import opened Sequences
  import opened TaskLists
  import opened TaskTurns

  /** (pid < 1) && (tid <= 1): the task that must not leave the running list. */
  ghost predicate IsKernel(t: Task) { t.pid < 1 && t.tid <= 1 }

  predicate CanRun(st: TaskState) { st == Runnable || st == Running }

  function TimeSlice(nice: int): int { 20 - nice / 2 }

  /** Two steps of nice are one tick of the slice: 20 ticks at the default, and never none. */
  lemma TimeSliceRange(nice: int, nicer: int)
    ensures nice <= nicer ==> TimeSlice(nicer) <= TimeSlice(nice)
    ensures TimeSlice(nice + 2) == TimeSlice(nice) - 1 && TimeSlice(0) == TimeSlice(1) == 20
    ensures -20 <= nice <= 20 ==> 10 <= TimeSlice(nice) <= 30
  {
    assert (nice + 2) / 2 == nice / 2 + 1;
  }

  class Sched {
    var tasksRunning: Task?
    var tasksIdling: Task?
    var cur: Task
    const kernel: Task
    ghost var running: seq<Task>
    ghost var idling: seq<Task>

    /** Every task is in one list, once. */
    ghost predicate Lists()
      reads this, running`next, idling`next
    {
      List(tasksRunning, running) && List(tasksIdling, idling) && Apart(running, idling)
    }

    /** The running list holds exactly those that can run, and only the current task is running. */
    ghost predicate Valid()
      reads this, running`next, idling`next, running`state, idling`state
    {
      && Lists() && kernel in running && IsKernel(kernel)
      && (forall t :: t in running ==> CanRun(t.state) && (IsKernel(t) ==> t == kernel))
      && (forall t :: t in idling ==> !CanRun(t.state) && !IsKernel(t))
      && (forall t :: t in running ==> t.state == Running ==> t == cur)
      && (cur in running || cur in idling)
    }

    /** kernel_task_init */
    constructor ()
      ensures Valid() && running == [kernel] && idling == [] && cur == kernel && fresh(kernel)
    {
      var k := new Task(0, 1, 0, 0, false);
      kernel, cur, tasksRunning, tasksIdling := k, k, k, null;
      running, idling := [k], [];
      new;
      kernel.timeslice := TimeSlice(kernel.nice);
    }

    /** idling_to_running */
    method IdlingToRunning(t: Task)
      requires Lists()
      modifies this`tasksRunning, this`tasksIdling, this`running, this`idling, idling`next, t`next
      ensures Lists()
      ensures if t in old(idling) then running == [t] + old(running) && idling == Without(old(idling), t)
        else running == old(running) && idling == old(idling)
    {
      hide List, Without, Distinct, Apart;
      ListDistinct(tasksIdling, idling);
      WithoutElements(idling, t);
      MoveApart(idling, running, t);
      var ret;
      ret, tasksIdling := TasklistDel(tasksIdling, t, idling);
      assert List(tasksRunning, running);
      if ret == 0 {
        idling := Without(idling, t);
        tasksRunning := TasklistAdd(tasksRunning, t, running);
        running := [t] + running;
      } else {
        WithoutAbsent(idling, t);
      }
    }

    /** running_to_idling */
    method RunningToIdling(t: Task)
      requires Lists()
      modifies this`tasksRunning, this`tasksIdling, this`running, this`idling, running`next, t`next
      ensures Lists()
      ensures if t in old(running) && !IsKernel(t)
        then idling == [t] + old(idling) && running == Without(old(running), t)
        else running == old(running) && idling == old(idling)
    {
      if t.pid < 1 && t.tid <= 1 {
        return;
      }
      hide List, Without, Distinct, Apart;
      ListDistinct(tasksRunning, running);
      WithoutElements(running, t);
      MoveApart(running, idling, t);
      var ret;
      ret, tasksRunning := TasklistDel(tasksRunning, t, running);
      assert List(tasksIdling, idling);
      if ret == 0 {
        running := Without(running, t);
        tasksIdling := TasklistAdd(tasksIdling, t, idling);
        idling := [t] + idling;
      } else {
        WithoutAbsent(running, t);
      }
    }

    ghost predicate Known(t: Task)
      reads this
    {
      t in running || t in idling
    }

    /** Being in the running list and not being its last is having a successor. */
    lemma Successor()
      requires Valid()
      ensures running != [] && tasksRunning == running[0]
      ensures cur in running <==> CanRun(cur.state)
      ensures cur in running ==>
        Next(running, cur) == if cur.next == null then tasksRunning else cur.next
      ensures cur !in running ==> Next(running, cur) == tasksRunning
      ensures cur in running && cur.next != null ==> cur.next in running
    {
      ghost var i := IndexOf(running, cur);
      if i + 1 < |running| { assert running[i].next == running[i + 1]; }
    }

    /** task_switch, when the current task has been taken out of its running state. */
    method TaskSwitch()
      requires Valid() && cur.state != Running
      modifies this`cur, running`state, running`timeslice
      ensures Valid() && running == old(running) && idling == old(idling)
      ensures cur == Next(running, old(cur)) && cur.state == Running && cur.timeslice == TimeSlice(cur.nice)
      ensures forall t :: t in running && t != cur ==> t.state == old(t.state) && t.timeslice == old(t.timeslice)
    {
      Successor();
      var t := cur;
      if !CanRun(t.state) || t.next == null {
        t := tasksRunning;
      } else {
        t := t.next;
      }
      t.timeslice := TimeSlice(t.nice);
      t.state := Running;
      cur := t;
    }

    /** The part of pend_sv_handler that chooses the next task. */
    method PendSv()
      requires Valid()
      modifies this`cur, running`state, running`timeslice
      ensures Valid() && running == old(running) && idling == old(idling)
      ensures cur == Next(running, old(cur)) && cur.state == Running && cur.timeslice == TimeSlice(cur.nice)
      ensures forall t :: t in running && t != cur ==> t.state == Runnable && t.timeslice == old(t.timeslice)
    {
      if cur.state == Running {
        assert cur in running;
        cur.state := Runnable;
      }
      TaskSwitch();
    }

    /** Interrupts in a row, while nothing else changes the lists: as many as there are tasks select each of them once. */
    method Interrupts(n: nat) returns (chosen: seq<Task>)
      requires Valid()
      modifies this`cur, running`state, running`timeslice
      ensures Valid() && running == old(running) && idling == old(idling)
      ensures chosen == Turns(running, old(cur), n)
      ensures n == |running| ==> multiset(chosen) == multiset(running)
    {
      hide List, Apart;
      ghost var first := cur;
      chosen := [];
      Successor();
      for i := 0 to n
        invariant Valid() && running == old(running) && idling == old(idling)
        invariant chosen == Turns(running, first, i) && cur == if i == 0 then first else chosen[i - 1]
      {
        TurnsSplit(running, first, i, 1);
        PendSv();
        assert Turns(running, if i == 0 then first else chosen[i - 1], 1) == [cur];
        chosen := chosen + [cur];
      }
      if n == |running| {
        ListDistinct(tasksRunning, running);
        EachOnce(running, first);
      }
    }

    /** task_suspend_to, except for the request to reschedule. */
    method SuspendTo(newstate: TaskState)
      requires Valid() && !CanRun(newstate)
      modifies this, running, idling
      ensures Valid() && cur == old(cur)
      ensures IsKernel(cur) ==> running == old(running) && idling == old(idling) && cur.state == old(cur.state)
      ensures !IsKernel(cur) ==> cur.state == newstate && running == Without(old(running), cur)
      ensures !IsKernel(cur) ==> idling == if cur in old(running) then [cur] + old(idling) else old(idling)
      ensures forall t :: t in old(running) + old(idling) && t != cur ==> t.state == old(t.state)
    {
      if cur.pid < 1 && cur.tid < 2 {
        return;
      }
      Leave(cur, newstate);
    }

    /** A task that is not the kernel leaves the running list, if it is there, for another state. */
    method Leave(t: Task, newstate: TaskState)
      requires Valid() && !CanRun(newstate) && Known(t) && !IsKernel(t)
      modifies this`tasksRunning, this`tasksIdling, this`running, this`idling, running, idling
      ensures Valid() && t.state == newstate && running == Without(old(running), t)
      ensures idling == if t in old(running) then [t] + old(idling) else old(idling)
      ensures forall x :: x in old(running) + old(idling) && x != t ==> x.state == old(x.state)
    {
      hide List, Without, Distinct, Apart;
      ListDistinct(tasksRunning, running);
      WithoutElements(running, t);
      if t !in running { WithoutAbsent(running, t); }
      RunningToIdling(t);
      if CanRun(t.state) {
        t.timeslice := 0;
      }
      t.state := newstate;
    }

    /** task_stop; stopping the kernel's own task would break the lists, and nothing else would. */
    method Stop(t: Task)
      requires Valid() && Known(t)
      modifies this`tasksRunning, this`tasksIdling, this`running, this`idling, running, idling
      ensures Lists() && t.state == Stopped
      ensures Valid() <==> t != kernel
      ensures t != kernel ==> running == Without(old(running), t)
      ensures t != kernel ==> idling == if t in old(running) then [t] + old(idling) else old(idling)
      ensures t == kernel ==> running == old(running) && idling == old(idling)
      ensures forall x :: x in old(running) + old(idling) && x != t ==> x.state == old(x.state)
    {
      if CanRun(t.state) {
        t.timeslice := 0;
      }
      if t != kernel {
        Leave(t, Stopped);
      } else {
        t.state := Stopped;
        RunningToIdling(t);
      }
    }

    /** A task in the idling list that is found in this state becomes runnable. */
    method Wake(t: Task, from: TaskState)
      requires Valid() && Known(t) && !CanRun(from)
      modifies this`tasksRunning, this`tasksIdling, this`running, this`idling, running, idling
      ensures Valid()
      ensures if old(t.state) == from
        then t.state == Runnable && running == [t] + old(running) && idling == Without(old(idling), t)
        else t.state == old(t.state) && running == old(running) && idling == old(idling)
      ensures forall x :: x in old(running) + old(idling) && x != t ==> x.state == old(x.state)
    {
      hide List, Without, Distinct, Apart;
      if t.state == from {
        ListDistinct(tasksIdling, idling);
        WithoutElements(idling, t);
        IdlingToRunning(t);
        t.state := Runnable;
      }
    }

    /** task_resume, for a task without the real-time priority. */
    method Resume(t: Task)
      requires Valid() && Known(t) && t.nice != -20
      modifies this`tasksRunning, this`tasksIdling, this`running, this`idling, running, idling
      ensures Valid()
      ensures if old(t.state) == Waiting
        then t.state == Runnable && running == [t] + old(running) && idling == Without(old(idling), t)
        else t.state == old(t.state) && running == old(running) && idling == old(idling)
      ensures forall x :: x in old(running) + old(idling) && x != t ==> x.state == old(x.state)
    {
      Wake(t, Waiting);
    }

    /** task_continue */
    method Continue(t: Task)
      requires Valid() && Known(t)
      modifies this`tasksRunning, this`tasksIdling, this`running, this`idling, running, idling
      ensures Valid()
      ensures if old(t.state) == Stopped
        then t.state == Runnable && running == [t] + old(running) && idling == Without(old(idling), t)
        else t.state == old(t.state) && running == old(running) && idling == old(idling)
      ensures forall x :: x in old(running) + old(idling) && x != t ==> x.state == old(x.state)
    {
      Wake(t, Stopped);
    }

    /** task_resume_vfork */
    method ResumeVfork(t: Task)
      requires Valid() && Known(t)
      modifies this`tasksRunning, this`tasksIdling, this`running, this`idling, running, idling
      ensures Valid()
      ensures if old(t.state) == Forked
        then t.state == Runnable && running == [t] + old(running) && idling == Without(old(idling), t)
        else t.state == old(t.state) && running == old(running) && idling == old(idling)
      ensures forall x :: x in old(running) + old(idling) && x != t ==> x.state == old(x.state)
    {
      Wake(t, Forked);
    }

    /** tasklist_get */
    static method TasklistGet(list: Task?, pid: nat, ghost s: seq<Task>) returns (t: Task?)
      requires List(list, s)
      ensures t != null ==> t in s && t.pid == pid && t.tid == 1
      ensures t == null ==> forall x :: x in s ==> x.pid != pid || x.tid != 1
    {
      t := list;
      ghost var i := 0;
      while t != null
        invariant 0 <= i <= |s| && (if i < |s| then t == s[i] else t == null)
        invariant forall k :: 0 <= k < i ==> s[k].pid != pid || s[k].tid != 1
        decreases |s| - i
      {
        if t.pid == pid && t.tid == 1 {
          return;
        }
        t := t.next;
        i := i + 1;
      }
    }

    /**
     * task_terminate: no other task changes its state. In particular a parent that waits for
     * a vfork child stays forked, because the call that should wake it gets the child
     * (scheduler.c:2402). Terminating the kernel's own task, which has no parent, would break
     * the lists, and nothing else would.
     */
    method Terminate(t: Task)
      requires Valid() && Known(t) && (t == kernel ==> t.ppid == 0)
      modifies this`tasksRunning, this`tasksIdling, this`running, this`idling, running, idling
      ensures Lists() && t.state == Zombie
      ensures Valid() <==> t != kernel
      ensures t != kernel ==> running == Without(old(running), t)
      ensures t != kernel ==> idling == if t in old(running) then [t] + old(idling) else old(idling)
      ensures t == kernel ==> running == old(running) && idling == old(idling)
      ensures forall x :: x in old(running) + old(idling) && x != t ==> x.state == old(x.state)
    {
      hide List, Distinct, Without;
      if t == kernel {
        RunningToIdling(t);
        t.state := Zombie;
        t.timeslice := 0;
        return;
      }
      ListDistinct(tasksRunning, running);
      WithoutElements(running, t);
      Leave(t, Zombie);
      SameTasks(old(running), old(idling), running, idling, t);
      t.timeslice := 0;
      if t.ppid > 0 {
        TellParent(t);
      }
    }

    /** scheduler.c:2388-2416, but for the signal itself. */
    method TellParent(t: Task)
      requires Valid() && Known(t) && t.state == Zombie
      modifies this`tasksRunning, this`tasksIdling, this`running, this`idling, running, idling
      ensures Valid() && running == old(running) && idling == old(idling)
      ensures forall x :: x in running + idling ==> x.state == old(x.state)
    {
      hide Valid, Lists;
      CurKnown();
      var pt := FindParent(t.ppid);
      if t.vforked {
        if pt != null {
          t.vforked := false;
        }
        ResumeVfork(t);
      }
      if pt == null || pt.state == Zombie || pt.state == Over {
        t.ppid := 1;
      }
      cur.timeslice := 0;
    }

    lemma CurKnown()
      requires Valid()
      ensures Known(cur)
    {
    }

    method FindParent(pid: nat) returns (pt: Task?)
      requires Valid()
      ensures pt != null ==> Known(pt) && pt.pid == pid && pt.tid == 1
    {
      pt := TasklistGet(tasksIdling, pid, idling);
      if pt == null {
        pt := TasklistGet(tasksRunning, pid, running);
      }
    }

    /** The end of sys_waitpid for a zombie child: it will be destroyed. */
    method Reap(t: Task)
      requires Valid() && t in idling && t.state == Zombie
      modifies t`state
      ensures Valid() && t.state == Over
    {
      t.state := Over;
    }

    /** What task_destroy does to the lists. */
    method Destroy(t: Task)
      requires Valid() && t != cur && t != kernel
      modifies this`tasksRunning, this`tasksIdling, this`running, this`idling, running`next, idling`next
      ensures Valid() && !Known(t)
      ensures running == Without(old(running), t) && idling == Without(old(idling), t)
    {
      hide List, Without, Distinct;
      ListDistinct(tasksRunning, running);
      ListDistinct(tasksIdling, idling);
      WithoutElements(running, t);
      WithoutElements(idling, t);
      RemoveApart(running, idling, t);
      var ret;
      ret, tasksRunning := TasklistDel(tasksRunning, t, running);
      running := Without(running, t);
      assert List(tasksIdling, idling);
      ret, tasksIdling := TasklistDel(tasksIdling, t, idling);
      idling := Without(idling, t);
    }

    /** task_create and the like: a new task is runnable and the first of its list. */
    method Create(pid: nat, tid: nat, nice: int, vforked: bool) returns (t: Task)
      requires Valid() && (pid >= 1 || tid > 1)
      modifies this`tasksRunning, this`running
      ensures Valid() && fresh(t) && t.state == Runnable && t.ppid == cur.pid
      ensures running == [t] + old(running) && idling == old(idling)
    {
      hide List, Apart, Distinct;
      t := new Task(pid, tid, cur.pid, nice, vforked);
      t.timeslice := TimeSlice(nice);
      AddApart(running, idling, t);
      tasksRunning := TasklistAdd(tasksRunning, t, running);
      assert List(tasksIdling, idling);
      running := [t] + running;
    }

    static lemma SameTasks(a: seq<Task>, b: seq<Task>, r: seq<Task>, i: seq<Task>, t: Task)
      requires Distinct(a) && r == Without(a, t) && i == (if t in a then [t] + b else b)
      ensures forall k :: 0 <= k < |r| ==> r[k] in a
      ensures forall k :: 0 <= k < |i| ==> i[k] in a || i[k] in b
    {
      WithoutElements(a, t);
      forall k | 0 <= k < |r| ensures r[k] in a { assert r[k] in r; }
      forall k | 0 <= k < |i| ensures i[k] in a || i[k] in b {
        if t in a && k > 0 { assert i[k] == b[k - 1]; }
      }
    }
  }
}

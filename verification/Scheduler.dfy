/** The scheduler as the kernel keeps it: task objects, a table of pointers and two intrusive queues. */
module Scheduler {
  import opened Common
  import opened TaskQueue
  import M = SchedModel
  import S = SchedCalls

  type Tid = nat
  type Cpu = nat

  /** The task objects with the tids in q. */
  ghost function Objects(tasks: map<Tid, Task>, q: seq<Tid>): (s: seq<Task>)
    requires forall t <- q :: t in tasks
    ensures |s| == |q| && forall i :: 0 <= i < |q| ==> s[i] == tasks[q[i]]
  {
    seq(|q|, i requires 0 <= i < |q| => tasks[q[i]])
  }

  /** Task t has its own object, with the bits and the time the model gives it. */
  ghost predicate TaskSynced(tasks: map<Tid, Task>, info: map<Tid, M.Info>, t: Tid)
    reads tasks.Values`status, tasks.Values`wakeuptime
  {
    && t in tasks && t in info && tasks[t].tid == t
    && tasks[t].status == info[t].status && tasks[t].wakeuptime == info[t].wake
  }

  ghost predicate TasksSynced(tasks: map<Tid, Task>, info: map<Tid, M.Info>)
    reads tasks.Values`status, tasks.Values`wakeuptime
  {
    && tasks.Keys == info.Keys
    && forall t {:trigger TaskSynced(tasks, info, t)} :: t in tasks ==> TaskSynced(tasks, info, t)
  }

  ghost predicate SlotsSynced(tasks: map<Tid, Task>, slots: seq<bool>, all: seq<Task?>) {
    && |all| == |slots|
    && forall t: nat {:trigger all[t]} {:trigger slots[t]} :: t < |all| ==>
         if slots[t] then t in tasks && all[t] == tasks[t] else all[t] == null
  }

  ghost predicate CpusSynced(tasks: map<Tid, Task>, cpus: map<Cpu, Task>, view: map<Cpu, Tid>) {
    && cpus.Keys == view.Keys
    && forall c {:trigger cpus[c]} :: c in cpus ==> view[c] in tasks && cpus[c] == tasks[view[c]]
  }

  ghost predicate Chain(q: Queue, tasks: map<Tid, Task>, ids: seq<Tid>)
    reads q, tasks.Values`prev, tasks.Values`next
  {
    (forall t <- ids :: t in tasks) && q.Holds(Objects(tasks, ids))
  }

  /** Two milliseconds, in nanoseconds: shorter sleeps are spent waiting. */
  const TIMESLICE_DEFAULT := 2000000

  /** What sched_kill makes of the queues for a sleeping task t. */
  twostate predicate Misplaced(asleep: Queue, dead: Queue, t: Task)
    reads asleep, dead, t
  {
    && t.status == old(t.status).(dead := true, asleep := false)
    && dead.front == t && t.next == null && t.prev == null
    && asleep.front == (if old(dead.front) == null then old(asleep.front) else old(dead.front))
    && asleep.back == old(asleep.back)
  }

  /** The queue operations of sched_kill for a sleeping task. Afterwards the sleep queue leads through t,
      or to the task that was at the front of the dead queue, and the front of the dead queue has no links. */
  method MoveSleeper(asleep: Queue, dead: Queue, t: Task, ghost s: seq<Task>, ghost d: seq<Task>, ghost at: nat)
    requires asleep != dead && asleep.Holds(s) && dead.Holds(d) && t !in d && at < |s| && s[at] == t
    modifies asleep, dead, (set x | x in d)`prev, t`prev, t`next
    ensures forall q: seq<Task> :: asleep.Holds(q) ==> t in q || (d != [] && d[0] in q)
    ensures dead.front == t && t.next == null && t.prev == null
    ensures asleep.front == if old(dead.front) == null then old(asleep.front) else old(dead.front)
    ensures asleep.back == old(asleep.back)
  {
    LinksBefore(asleep, s, at);
    LinksBefore(dead, d, 0);
    hide Queue.Holds;
    dead.PushFront(t, d);
    asleep.Remove(t, s, at);
    forall q: seq<Task> | asleep.Holds(q)
      ensures t in q || (d != [] && d[0] in q)
    {
      if d == [] {
        FrontLeadsTo(asleep, s, q, at);
      } else {
        FrontLeadsTo(asleep, d, q, 0);
      }
    }
  }

  class Kernel {
    var all: seq<Task?>
    var running: map<Cpu, Task>
    var idle: map<Cpu, Task>
    const asleep: Queue
    const dead: Queue

    /** The task objects that exist, and the state they represent. */
    ghost var tasks: map<Tid, Task>
    ghost var view: M.State

    ghost predicate Synced()
      reads this, asleep, dead, tasks.Values
    {
      && asleep != dead
      && TasksSynced(tasks, view.info) && SlotsSynced(tasks, view.slots, all)
      && CpusSynced(tasks, running, view.running) && CpusSynced(tasks, idle, view.idle)
      && Chain(asleep, tasks, view.asleep) && Chain(dead, tasks, view.dead)
    }

    ghost predicate Valid()
      reads this, asleep, dead, tasks.Values
    {
      Synced() && M.Inv(view)
    }

    constructor ()
      ensures Valid() && view == M.BOOT
      ensures fresh(asleep) && fresh(dead)
    {
      asleep := new Queue();
      dead := new Queue();
      all, running, idle := [], map[], map[];
      tasks, view := map[], M.BOOT;
      new;
      M.BootInv();
      assert Objects(tasks, view.asleep) == [];
    }

    /** Sets the status bits of one task. */
    method SetStatus(t: Task, status: Status)
      requires Synced() && t.tid in tasks && tasks[t.tid] == t
      modifies t`status, this`view
      ensures Synced()
      ensures t.tid in old(view).info && view == M.SetStatus(old(view), t.tid, status)
    {
      hide Chain, SlotsSynced, CpusSynced;
      assert TaskSynced(tasks, view.info, t.tid);
      ghost var n := M.SetStatus(view, t.tid, status);
      forall u <- tasks
        ensures u != t.tid ==> TaskSynced(tasks, n.info, u) && tasks[u] != t
      {
        assert TaskSynced(tasks, view.info, u);
      }
      t.status := status;
      view := n;
    }

    // ----- _do_context_switch -----

    /** Takes the task that wakes first off the sleep queue. */
    method PopAsleep() returns (t: Task)
      requires Synced() && Apart(view) && view.asleep != []
      modifies this`view, asleep, tasks.Values`next
      ensures Synced() && view == old(view).(asleep := old(view).asleep[..|old(view).asleep| - 1])
      ensures var last := old(view).asleep[|old(view).asleep| - 1]; last in tasks && t == tasks[last]
    {
      hide TasksSynced, SlotsSynced, CpusSynced, Queue.Holds;
      ghost var s := Objects(tasks, view.asleep);
      ghost var rest := view.asleep[..|view.asleep| - 1];
      ObjectsApart(this);
      var back := asleep.PopBack(s);
      t := back;
      assert Objects(tasks, rest) == s[..|s| - 1];
      view := view.(asleep := rest);
    }

    /** Wakes the task at the back of the sleep queue. */
    method WakeLast()
      requires Synced() && Apart(view) && view.asleep != []
      modifies this`view, asleep, tasks.Values
      ensures Synced() && Apart(view)
      ensures old(view).asleep[|old(view).asleep| - 1] in old(view).info && view == M.WakeLast(old(view))
      ensures |view.asleep| < |old(view).asleep|
    {
      hide TasksSynced, SlotsSynced, CpusSynced, Chain;
      BackOf(this);
      WakeApart(view);
      var t := PopAsleep();
      SetStatus(t, t.status.(asleep := false));
    }

    method WakeSleepers(clock: nat -> nat)
      requires Synced() && Apart(view)
      modifies this`view, asleep, tasks.Values
      ensures Synced() && view == M.WakeUp(old(view), clock, 0)
    {
      hide Synced, Apart, M.WakeLast, M.WakeUp, M.Known, TaskSynced;
      var k: nat := 0;
      while asleep.back != null && asleep.back.wakeuptime < clock(k)
        invariant Synced() && Apart(view)
        invariant M.WakeUp(view, clock, k) == M.WakeUp(old(view), clock, 0)
        decreases |view.asleep|
      {
        BackOf(this);
        M.WakeStep(view, clock, k);
        WakeLast();
        k := k + 1;
      }
      BackOf(this);
      M.WakeDone(view, clock, k);
    }

    /** The first ready task of a part of the table. */
    method Scan(from: nat, to: nat) returns (next: Task?)
      requires Synced()
      ensures var r := M.FirstReady(view, from, to);
              if r.None? then next == null else r.value in tasks && next == tasks[r.value]
    {
      hide CpusSynced, Chain, M.FirstReady;
      var i := from;
      while i < to && i < |all|
        invariant from <= i
        invariant forall t: nat :: from <= t < i ==> !M.Ready(view, t)
      {
        var t := all[i];
        assert t != null ==> TaskSynced(tasks, view.info, i);
        if t != null && t.status == READY {
          assert M.Ready(view, i);
          return t;
        }
        i := i + 1;
      }
      return null;
    }

    /** After the current task, then from the start up to it, then the idle task. */
    method Pick(c: Cpu, curr: Task) returns (next: Task)
      requires Synced() && c in idle
      ensures c in view.idle
      ensures var t := M.Choose(view, curr.tid, view.idle[c]); t in tasks && next == tasks[t]
    {
      hide TasksSynced, Chain, M.FirstReady;
      var found := Scan(curr.tid + 1, |all|);
      if found == null {
        found := Scan(0, curr.tid + 1);
      }
      next := if found == null then idle[c] else found;
    }

    /** The first half: the current task is released, and sleepers wake. */
    method BeforeChoice(c: Cpu, clock: nat -> nat)
      requires Valid() && c in running
      modifies this`view, asleep, tasks.Values
      ensures c in old(view).running && old(view).running[c] in old(view).info
      ensures Synced() && view == M.BeforeChoice(old(view), c, clock)
    {
      hide Synced, M.Inv, M.WakeUp, Apart;
      CurrentTask(this, c);
      InvApart(view);
      ReleaseApart(view, running[c].tid);
      var curr := running[c];
      SetStatus(curr, curr.status.(running := false));
      WakeSleepers(clock);
    }

    /** _do_context_switch on processor c; clock(k) is the k-th reading of the HPET in it. */
    method ContextSwitch(c: Cpu, clock: nat -> nat)
      requires Valid() && c in running && M.Clock(clock)
      modifies this`view, this`running, asleep, tasks.Values
      ensures c in old(view).running && old(view).running[c] in old(view).info
      ensures Valid() && view == M.Switch(old(view), c, clock)
      ensures M.IsStep(old(view), M.DoSwitch(c, clock), view)
    {
      hide Synced, M.Inv, M.WakeUp, M.Switch, M.BeforeChoice, M.Choose;
      ghost var s := view;
      CurrentTask(this, c);
      var curr := running[c];
      BeforeChoice(c, clock);
      M.SwitchShape(s, c, clock);
      M.BeforeShape(s, c, clock);
      M.SwitchKeepsInv(s, c, clock);
      ghost var chosen := M.Chosen(s, c, clock);
      var next := Pick(c, curr);
      TaskNames(this, chosen);
      RunNext(c, next);
    }

    /** The second half: the chosen task runs. */
    method RunNext(c: Cpu, next: Task)
      requires Synced() && c in running && next.tid in tasks && tasks[next.tid] == next && next.tid in view.info
      modifies this`view, this`running, next`status
      ensures Synced()
      ensures next.tid in old(view).info
      ensures view == M.SetStatus(old(view), next.tid, old(view).info[next.tid].status.(running := true))
                       .(running := old(view).running[c := next.tid])
    {
      hide TasksSynced, SlotsSynced, Chain;
      TaskNames(this, next.tid);
      SetStatus(next, next.status.(running := true));
      running := running[c := next];
      view := view.(running := view.running[c := next.tid]);
    }

    // ----- sched_sleep -----

    /** Links t into the sleep queue after a; at is the position it gets. A null a is the push to the
        front of an empty queue, or of one whose first task wakes no later. */
    method PutAfter(a: Task?, t: Task, ghost at: nat)
      requires Synced() && Apart(view) && at <= |view.asleep|
      requires t.tid in tasks && tasks[t.tid] == t && t.tid !in view.asleep && t.tid !in view.dead
      requires if at == 0 then a == null else view.asleep[at - 1] in tasks && a == tasks[view.asleep[at - 1]]
      modifies this`view, asleep, tasks.Values`next, tasks.Values`prev
      ensures Synced()
      ensures view == old(view).(asleep := old(view).asleep[..at] + [t.tid] + old(view).asleep[at..])
    {
      hide SlotsSynced, CpusSynced, TasksSynced, Queue.Holds;
      ghost var s := Objects(tasks, view.asleep);
      ObjectsApart(this);
      NotQueued(this, t);
      asleep.InsertAfter(a, t, s, at - 1);
      ghost var q := view.asleep[..at] + [t.tid] + view.asleep[at..];
      assert Objects(tasks, q) == s[..at] + [t] + s[at..];
      view := view.(asleep := q);
    }

    /** The first task of the sleep queue that wakes no later than w; there is one. */
    method FirstBefore(w: nat) returns (i: Task?, ghost at: nat)
      requires Synced() && Apart(view) && view.asleep != []
      requires M.Known(view) && view.info[view.asleep[|view.asleep| - 1]].wake <= w
      ensures at < |view.asleep| && view.asleep[at] in tasks && i == tasks[view.asleep[at]]
      ensures at == M.SleepAt(view, w, 0)
    {
      hide SlotsSynced, CpusSynced, M.SleepAt, M.Distinct;
      ghost var s := Objects(tasks, view.asleep);
      forall k | 0 <= k < |s|
        ensures s[k].wakeuptime == view.info[view.asleep[k]].wake
      {
        TaskNames(this, view.asleep[k]);
      }
      hide TasksSynced;
      i := asleep.front;
      at := 0;
      while i.wakeuptime > w
        invariant at < |s| && i == s[at]
        invariant forall k :: 0 <= k < at ==> view.info[view.asleep[k]].wake > w
        decreases |s| - at
      {
        i := i.next;
        at := at + 1;
      }
    }

    /** add_sleeping_sorted: the queue stays sorted with the earliest at the back. */
    method AddSleepingSorted(t: Task)
      requires Synced() && Apart(view) && M.Sorted(view)
      requires t.tid in tasks && tasks[t.tid] == t && t.tid !in view.asleep && t.tid !in view.dead
      modifies this`view, asleep, tasks.Values`next, tasks.Values`prev
      ensures Synced()
      ensures var s, at := old(view), M.SleepAt(old(view), t.wakeuptime, 0);
              view == s.(asleep := s.asleep[..at] + [t.tid] + s.asleep[at..])
    {
      hide Synced, Apart, M.SleepAt, M.Known, M.Sorted, TaskSynced;
      BackOf(this);
      FrontOf(this);
      TaskNames(this, t.tid);
      if asleep.front == null {
        PutAfter(null, t, 0);
      } else if asleep.back.wakeuptime > t.wakeuptime {
        SleepsLast(view, t.wakeuptime);
        PutAfter(asleep.back, t, |view.asleep|);
      } else {
        var i, at := FirstBefore(t.wakeuptime);
        LinksOf(this, at);
        PutAfter(i.prev, t, at);
      }
    }

    /** Sets the sleep bit and the time of one task. */
    method MarkAsleep(t: Task, wake: nat)
      requires Synced() && t.tid in tasks && tasks[t.tid] == t
      modifies t`status, t`wakeuptime, this`view
      ensures Synced()
      ensures t.tid in old(view).info && view == M.Marked(old(view), t.tid, wake) && t.wakeuptime == wake
    {
      hide Chain, SlotsSynced, CpusSynced;
      assert TaskSynced(tasks, view.info, t.tid);
      ghost var n := M.Marked(view, t.tid, wake);
      forall u <- tasks
        ensures u != t.tid ==> TaskSynced(tasks, n.info, u) && tasks[u] != t
      {
        assert TaskSynced(tasks, view.info, u);
      }
      t.wakeuptime := wake;
      t.status := t.status.(asleep := true);
      view := n;
    }

    /** sched_sleep by the task that runs on c, at time now. A short sleep is served for every task and
        changes nothing; for a longer one the task must be in the table and awake. */
    method Sleep(c: Cpu, nanos: nat, now: nat)
      requires Valid() && c in running
      requires nanos > TIMESLICE_DEFAULT ==> M.Enabled(view, M.DoSleep(c, now + nanos))
      modifies this`view, asleep, tasks.Values
      ensures c in old(view).running && old(view).running[c] in old(view).info
      ensures Valid() && view == if nanos <= TIMESLICE_DEFAULT then old(view) else M.Sleep(old(view), c, now + nanos)
      ensures nanos > TIMESLICE_DEFAULT ==> M.Follows(old(view), M.DoSleep(c, now + nanos), view)
      ensures nanos > TIMESLICE_DEFAULT ==>
                && running[c].wakeuptime == now + nanos
                && running[c].status == old(running[c].status).(asleep := true)
                && running[c].tid in view.asleep
    {
      hide Synced, M.Inv, M.SleepAt, M.Sorted, Apart, M.RunsSomewhere;
      CurrentTask(this, c);
      if nanos > TIMESLICE_DEFAULT {
        ghost var s := view;
        MarkedApart(s, running[c].tid, now + nanos);
        MarkAsleep(running[c], now + nanos);
        AddSleepingSorted(running[c]);
        M.SleepKeepsInv(s, c, now + nanos);
        S.SleepMeaning(s, c, now + nanos);
        TaskNames(this, running[c].tid);
      }
    }

    // ----- sched_block, sched_unblock -----

    /** IS_TID_VALID */
    predicate IsTidValid(tid: Tid)
      reads this`all
    {
      tid < |all| && all[tid] != null
    }

    /** wait: the caller is the blocked task and cannot go on. */
    method Block(c: Cpu, tid: Tid) returns (r: int, wait: bool)
      requires Valid() && c in running
      modifies this`view, tasks.Values`status
      ensures Valid() && view == M.Block(old(view), tid)
      ensures M.IsStep(old(view), M.DoBlock(tid), view)
      ensures r == if M.InTable(old(view), tid) && !old(view).info[tid].status.blocked then 0 else -1
      ensures r == -1 <==> view == old(view)
      ensures M.InTable(old(view), tid) ==>
                tid in tasks && tasks[tid].status == old(tasks[tid].status).(blocked := true)
      ensures c in old(view).running && (wait <==> r == 0 && old(view).running[c] == tid)
    {
      hide Synced, M.Inv;
      ValidTid(this, tid);
      CurrentTask(this, c);
      if !IsTidValid(tid) || all[tid].status.blocked {
        return -1, false;
      }
      M.BlockedBitKeepsInv(view, tid, true);
      var t := all[tid];
      SetStatus(t, t.status.(blocked := true));
      TaskNames(this, tid);
      return 0, t == running[c];
    }

    method Unblock(tid: Tid) returns (r: int)
      requires Valid()
      modifies this`view, tasks.Values`status
      ensures Valid() && view == M.Unblock(old(view), tid)
      ensures M.IsStep(old(view), M.DoUnblock(tid), view)
      ensures r == if M.InTable(old(view), tid) && old(view).info[tid].status.blocked then 0 else -1
      ensures r == -1 <==> view == old(view)
      ensures M.InTable(old(view), tid) ==>
                tid in tasks && tasks[tid].status == old(tasks[tid].status).(blocked := false)
    {
      hide Synced, M.Inv;
      ValidTid(this, tid);
      if !IsTidValid(tid) || !all[tid].status.blocked {
        return -1;
      }
      M.BlockedBitKeepsInv(view, tid, false);
      var t := all[tid];
      SetStatus(t, t.status.(blocked := false));
      TaskNames(this, tid);
      return 0;
    }

    // ----- sched_kill -----

    /** Pushes a task that is in no queue onto the dead queue. */
    method PushDead(t: Task)
      requires Synced() && Apart(view) && t.tid in tasks && tasks[t.tid] == t
      requires t.tid !in view.asleep && t.tid !in view.dead
      modifies this`view, dead, tasks.Values`next, tasks.Values`prev
      ensures Synced() && view == old(view).(dead := [t.tid] + old(view).dead)
    {
      hide SlotsSynced, CpusSynced, TasksSynced, Queue.Holds;
      ghost var s := Objects(tasks, view.dead);
      ObjectsApart(this);
      NotQueued(this, t);
      dead.PushFront(t, s);
      ghost var q := [t.tid] + view.dead;
      assert Objects(tasks, q) == [t] + s;
      view := view.(dead := q);
    }

    /** Clears the slot of a task. */
    method ClearSlot(tid: Tid)
      requires Synced() && tid < |all|
      modifies this`all, this`view
      ensures tid < |old(view).slots|
      ensures Synced() && view == old(view).(slots := old(view).slots[tid := false])
    {
      hide TasksSynced, CpusSynced, Chain;
      all := all[tid := null];
      view := view.(slots := view.slots[tid := false]);
    }

    /** sched_kill. A task that is not asleep goes from the table to the dead queue. For a sleeping task
        the push to the dead queue overwrites the links that tq_remove goes by: whatever the sleep
        queue leads through then has a task in it that does not sleep, its front is what the front of the
        dead queue was, and the dead queue ends at its new front. */
    method Kill(c: Cpu, tid: Tid) returns (r: int, wait: bool)
      requires Valid() && c in running
      modifies this`all, this`view, asleep, dead, tasks.Values
      ensures r == if M.InTable(old(view), tid) then 0 else -1
      ensures wait <==> r == 0 && c in old(view).running && old(view).running[c] == tid
      ensures Valid() <==> !Sleeps(old(view), tid)
      ensures !Sleeps(old(view), tid) ==> view == M.Kill(old(view), tid)
      ensures M.IsStep(old(view), M.DoKill(tid), view)
      ensures Sleeps(old(view), tid) ==> forall q: seq<Task> :: asleep.Holds(q) ==> exists x <- q :: !x.status.asleep
      ensures Sleeps(old(view), tid) ==>
                && tid < |old(all)| && all == old(all)[tid := null]
                && old(all)[tid] != null && Misplaced(asleep, dead, old(all)[tid])
    {
      hide Synced, M.Inv, Apart, TaskSynced;
      ValidTid(this, tid);
      CurrentTask(this, c);
      InvApart(view);
      if !IsTidValid(tid) {
        return -1, false;
      }
      var t := all[tid];
      wait := t == running[c];
      TableTask(view, tid);
      if t.status.asleep {
        SleeperFacts(this, t);
        KillAsleep(t, Objects(tasks, view.asleep), Objects(tasks, view.dead));
        AwakeInQueue(this);
      } else {
        ghost var s := view;
        M.KillKeepsInv(s, tid);
        SetStatus(t, t.status.(dead := true));
        ClearSlot(tid);
        SameQueuesApart(s, view);
        PushDead(t);
        assert view == M.Kill(s, tid);
      }
      return 0, wait;
    }

    /** The same steps for a task that sleeps; s and d are what the two queues hold. */
    method KillAsleep(t: Task, ghost s: seq<Task>, ghost d: seq<Task>)
      requires asleep != dead && asleep.Holds(s) && dead.Holds(d) && t in s && t !in d && t.tid < |all|
      requires forall x <- d :: !x.status.asleep
      modifies this`all, asleep, dead, t, (set x | x in d)`prev
      ensures forall q: seq<Task> :: asleep.Holds(q) ==> exists x <- q :: !x.status.asleep
      ensures all == old(all)[t.tid := null] && Misplaced(asleep, dead, t)
    {
      hide Queue.Holds;
      ghost var at: nat :| at < |s| && s[at] == t;
      t.status := t.status.(dead := true);
      all := all[t.tid := null];
      MoveSleeper(asleep, dead, t, s, d, at);
      t.status := t.status.(asleep := false);
    }

    // ----- sched_add, sched_init -----

    /** sched_add of a new task. Slots that are skipped are taken to be null here. The invariant survives
        exactly when no task has a larger tid. */
    method Add(t: Task)
      requires Valid() && t.tid !in view.info && t.status == READY && t.wakeuptime == 0
      modifies this`all, this`tasks, this`view
      ensures Synced() && view == M.Add(old(view), t.tid, M.Zeros) && tasks == old(tasks)[t.tid := t]
      ensures M.IsStep(old(view), M.DoAdd(t.tid, M.Zeros), view)
      ensures Valid() <==> forall u <- old(view).info :: u < t.tid
      ensures running == old(running) && idle == old(idle) && |all| == t.tid + 1
    {
      hide M.Inv, M.Distinct, Queue.Holds, SlotsSynced, CpusSynced, TaskSynced;
      ghost var s, was := view, tasks;
      InvApart(s);
      M.AddKeepsInvExactly(s, t.tid, M.Zeros);
      CpusGrow(tasks, running, s.running, t);
      CpusGrow(tasks, idle, s.idle, t);
      ghost var before := all;
      all := seq(t.tid + 1, u requires 0 <= u reads this`all =>
        if u == t.tid then t else if u < |all| then all[u] else null);
      SlotsGrow(tasks, s.slots, before, t, all);
      tasks := tasks[t.tid := t];
      view := M.Add(s, t.tid, M.Zeros);
      NewTask(was, s.info, t);
      assert Objects(tasks, s.asleep) == Objects(was, s.asleep);
      assert Objects(tasks, s.dead) == Objects(was, s.dead);
    }

    /** The first half of sched_init: a new idle task runs on c and loses its slot. */
    method StartIdle(c: Cpu)
      requires Valid() && c !in running
      modifies this`all, this`tasks, this`view, this`running, this`idle
      ensures Valid() && view == M.Start(old(view), c)
      ensures M.IsStep(old(view), M.DoStart(c), view)
    {
      hide M.Inv, TasksSynced, SlotsSynced, CpusSynced, Chain, M.Start;
      ghost var s := view;
      FreeTids(this);
      var task := new Task(|all|);
      Add(task);
      CpuSet(tasks, running, view.running, c, task.tid);
      CpuSet(tasks, idle, view.idle, c, task.tid);
      running := running[c := task];
      idle := idle[c := task];
      view := view.(running := view.running[c := task.tid], idle := view.idle[c := task.tid]);
      ClearSlot(task.tid);
      StartIs(s, c);
      M.StartKeepsInv(s, c);
    }

    /** sched_init on processor c. On the first processor two more tasks are added. */
    method Start(c: Cpu, first: bool)
      requires Valid() && c !in running
      modifies this`all, this`tasks, this`view, this`running, this`idle
      ensures Valid()
      ensures var s := M.Start(old(view), c);
              view == if first then M.Add(M.Add(s, |s.slots|, M.Zeros), |s.slots| + 1, M.Zeros) else s
    {
      hide M.Inv, Synced, M.Start;
      StartIdle(c);
      if first {
        FreeTids(this);
        var firstTask := new Task(|all|);
        Add(firstTask);
        FreeTids(this);
        var janitor := new Task(|all|);
        Add(janitor);
      }
    }

    // ----- sched_janitor -----

    /** Takes the task at the back of the dead queue off it. */
    method PopDead() returns (t: Task?)
      requires Synced() && Apart(view)
      modifies this`view, dead, tasks.Values`next
      ensures Synced()
      ensures old(view).dead == [] ==> t == null && view == old(view)
      ensures old(view).dead != [] ==>
                var last := |old(view).dead| - 1;
                && view == old(view).(dead := old(view).dead[..last])
                && old(view).dead[last] in tasks && t == tasks[old(view).dead[last]] && t.tid == old(view).dead[last]
    {
      hide TasksSynced, SlotsSynced, CpusSynced, Queue.Holds, M.Distinct;
      LastDead(this);
      ghost var s := Objects(tasks, view.dead);
      ObjectsApart(this);
      t := dead.PopBack(s);
      if t != null {
        ghost var rest := view.dead[..|view.dead| - 1];
        assert Objects(tasks, rest) == s[..|s| - 1];
        view := view.(dead := rest);
      }
    }

    /** Frees a task that nothing mentions any more. */
    method FreeTask(t: Task)
      requires Synced() && Forgotten(view, t.tid) && t.tid in tasks && t.tid !in view.asleep && t.tid !in view.dead
      modifies this`all, this`tasks, this`view
      ensures Synced() && view == old(view).(info := old(view).info - {t.tid}) && tasks.Values <= old(tasks.Values)
    {
      hide Queue.Holds, SlotsSynced, CpusSynced, TasksSynced;
      ghost var was := tasks;
      CpusDrop(tasks, running, view.running, t.tid);
      CpusDrop(tasks, idle, view.idle, t.tid);
      SlotsDrop(tasks, view.slots, all, t.tid);
      TasksDrop(tasks, view.info, t.tid);
      all := all[t.tid := null];
      tasks := tasks - {t.tid};
      view := view.(info := view.info - {t.tid});
      assert tasks.Values <= was.Values;
      assert Objects(tasks, view.dead) == Objects(was, view.dead);
      assert Objects(tasks, view.asleep) == Objects(was, view.asleep);
    }

    /** One round of sched_janitor: every dead task is freed. No processor may run one any more. */
    method Janitor()
      requires Valid() && M.Enabled(view, M.DoReap)
      modifies this`all, this`tasks, this`view, dead, tasks.Values`next
      ensures Valid() && view == M.Reap(old(view))
      ensures M.IsStep(old(view), M.DoReap, view)
    {
      hide Synced, M.Inv, Apart, Detached, Forgotten, M.RunsSomewhere, M.Reap;
      ghost var s := view;
      M.ReapKeepsInvExactly(s);
      InvApart(s);
      DeadDetached(s);
      var t := PopDead();
      ghost var before := s;
      while t != null
        invariant Synced() && Apart(before) && Detached(before) && M.Reap(before) == M.Reap(s)
        invariant t == null ==> before.dead == [] && view == before
        invariant t != null ==> before.dead != [] && t.tid == before.dead[|before.dead| - 1] && t.tid in tasks
        invariant t != null ==> view == before.(dead := before.dead[..|before.dead| - 1])
        invariant tasks.Values <= old(tasks.Values)
        decreases |before.dead|
      {
        FreeLastApart(before);
        FreeTask(t);
        before := FreeLast(before);
        t := PopDead();
      }
      ReapNothing(before);
    }
  }

  /** The state after the last dead task was freed. */
  function FreeLast(s: M.State): M.State
    requires s.dead != []
  {
    s.(info := s.info - {s.dead[|s.dead| - 1]}, dead := s.dead[..|s.dead| - 1])
  }

  ghost predicate Forgotten(s: M.State, t: Tid) {
    t < |s.slots| && !s.slots[t] && (forall c <- s.running :: s.running[c] != t) && forall c <- s.idle :: s.idle[c] != t
  }

  /** No table slot and no processor knows a dead task. */
  ghost predicate Detached(s: M.State) {
    forall t <- s.dead :: Forgotten(s, t)
  }

  lemma DeadDetached(s: M.State)
    requires M.Inv(s) && M.Enabled(s, M.DoReap)
    ensures Detached(s)
  {
    hide M.Cpus, M.Queues;
    forall t <- s.dead
      ensures t < |s.slots| && !s.slots[t] && !M.RunsSomewhere(s, t) && !M.IsIdle(s, t)
    {
      assert M.Exists(s, t) && M.TaskOk(s, t);
    }
  }

  lemma FreeLastApart(s: M.State)
    requires Apart(s) && Detached(s) && s.dead != []
    ensures Apart(FreeLast(s)) && Detached(FreeLast(s)) && M.Reap(FreeLast(s)) == M.Reap(s)
    ensures var last, rest := s.dead[|s.dead| - 1], s.dead[..|s.dead| - 1];
            last !in s.asleep && last !in rest && Forgotten(s.(dead := rest), last)
  {
    var last, rest := s.dead[|s.dead| - 1], s.dead[..|s.dead| - 1];
    assert s.dead == rest + [last];
    forall t | t in s.dead
      ensures t in rest + [last] && Forgotten(FreeLast(s), t) && Forgotten(s.(dead := rest), t)
    {
      assert Forgotten(s, t);
    }
  }

  lemma ReapNothing(s: M.State)
    requires s.dead == []
    ensures M.Reap(s) == s
  {
  }

  lemma LastDead(k: Kernel)
    requires k.Synced()
    ensures k.dead.back == null <==> k.view.dead == []
    ensures k.view.dead != [] ==>
              var last := k.view.dead[|k.view.dead| - 1];
              last in k.tasks && k.dead.back == k.tasks[last] && k.tasks[last].tid == last
  {
    hide SlotsSynced, CpusSynced;
    if k.view.dead != [] {
      assert TaskSynced(k.tasks, k.view.info, k.view.dead[|k.view.dead| - 1]);
    }
  }

  lemma CpusDrop(tasks: map<Tid, Task>, cpus: map<Cpu, Task>, view: map<Cpu, Tid>, t: Tid)
    requires CpusSynced(tasks, cpus, view) && forall c <- view :: view[c] != t
    ensures CpusSynced(tasks - {t}, cpus, view)
  {
  }

  lemma SlotsDrop(tasks: map<Tid, Task>, slots: seq<bool>, all: seq<Task?>, t: Tid)
    requires SlotsSynced(tasks, slots, all) && t < |slots| && !slots[t]
    ensures |all| == |slots|
    ensures SlotsSynced(tasks - {t}, slots, all[t := null])
  {
  }

  lemma TasksDrop(tasks: map<Tid, Task>, info: map<Tid, M.Info>, t: Tid)
    requires TasksSynced(tasks, info)
    ensures TasksSynced(tasks - {t}, info - {t})
  {
    forall u <- tasks - {t}
      ensures TaskSynced(tasks - {t}, info - {t}, u)
    {
      assert TaskSynced(tasks, info, u);
    }
  }

  lemma SlotsGrow(tasks: map<Tid, Task>, slots: seq<bool>, all: seq<Task?>, t: Task, now: seq<Task?>)
    requires SlotsSynced(tasks, slots, all) && t.tid !in tasks
    requires |now| == t.tid + 1 && now[t.tid] == t
    requires forall u :: 0 <= u < t.tid ==> now[u] == if u < |all| then all[u] else null
    ensures |all| == |slots|
    ensures SlotsSynced(tasks[t.tid := t], M.Resized(slots, t.tid, M.Zeros), now)
  {
  }

  lemma CpusGrow(tasks: map<Tid, Task>, cpus: map<Cpu, Task>, view: map<Cpu, Tid>, t: Task)
    requires CpusSynced(tasks, cpus, view) && t.tid !in tasks
    ensures CpusSynced(tasks[t.tid := t], cpus, view)
  {
  }

  lemma CpuSet(tasks: map<Tid, Task>, cpus: map<Cpu, Task>, view: map<Cpu, Tid>, c: Cpu, t: Tid)
    requires CpusSynced(tasks, cpus, view) && t in tasks
    ensures CpusSynced(tasks, cpus[c := tasks[t]], view[c := t]) && cpus.Keys == view.Keys
  {
  }

  lemma StartIs(s: M.State, c: Cpu)
    ensures var n, t := M.Add(s, |s.slots|, M.Zeros), |s.slots|;
            M.Start(s, c) ==
            n.(running := n.running[c := t], idle := n.idle[c := t], slots := n.slots[t := false])
  {
  }

  lemma NewTask(tasks: map<Tid, Task>, info: map<Tid, M.Info>, t: Task)
    requires TasksSynced(tasks, info) && t.tid !in tasks && t.status == READY && t.wakeuptime == 0
    ensures TasksSynced(tasks[t.tid := t], info[t.tid := M.Info(READY, 0)])
  {
    forall u <- tasks
      ensures TaskSynced(tasks[t.tid := t], info[t.tid := M.Info(READY, 0)], u)
    {
      assert TaskSynced(tasks, info, u);
    }
  }

  lemma FreeTids(k: Kernel)
    requires k.Valid()
    ensures |k.all| == |k.view.slots| && |k.all| !in k.view.info
    ensures forall u <- k.view.info :: u < |k.all|
  {
    hide M.Inv, TasksSynced, CpusSynced, Chain;
    M.NoTaskBeyond(k.view);
  }

  predicate Sleeps(s: M.State, t: Tid) {
    M.InTable(s, t) && s.info[t].status.asleep
  }

  /** A sleeping task of the table is in the sleep queue, and no dead task sleeps. */
  lemma SleeperFacts(k: Kernel, t: Task)
    requires k.Valid() && t.tid in k.tasks && k.tasks[t.tid] == t && M.InTable(k.view, t.tid) && t.status.asleep
    ensures t in Objects(k.tasks, k.view.asleep) && t !in Objects(k.tasks, k.view.dead)
    ensures forall x <- Objects(k.tasks, k.view.dead) :: !x.status.asleep
    ensures k.asleep.Holds(Objects(k.tasks, k.view.asleep)) && k.dead.Holds(Objects(k.tasks, k.view.dead))
    ensures k.asleep != k.dead && |k.all| > t.tid && forall u <- k.view.asleep + k.view.dead :: u in k.tasks
  {
    hide SlotsSynced, CpusSynced, Queue.Holds, M.Cpus, M.Queues, M.Exists, M.RunsSomewhere, M.IsIdle;
    TaskNames(k, t.tid);
    ValidTid(k, t.tid);
    assert M.TaskOk(k.view, t.tid);
    var i :| 0 <= i < |k.view.asleep| && k.view.asleep[i] == t.tid;
    assert Objects(k.tasks, k.view.asleep)[i] == t;
    forall u <- k.view.dead
      ensures u in k.view.info && u != t.tid && k.tasks[u].tid == u && !k.tasks[u].status.asleep
    {
      DeadAwake(k.view, u);
      TaskNames(k, u);
    }
  }

  /** No state of the model fits a sleep queue that leads through a task that does not sleep. */
  lemma AwakeInQueue(k: Kernel)
    requires forall q: seq<Task> :: k.asleep.Holds(q) ==> exists x <- q :: !x.status.asleep
    ensures !k.Valid()
  {
    if k.Valid() {
      hide SlotsSynced, CpusSynced, Queue.Holds, M.Cpus, M.Queues, M.RunsSomewhere, M.IsIdle;
      var q := Objects(k.tasks, k.view.asleep);
      assert k.asleep.Holds(q);
      forall i | 0 <= i < |q|
        ensures q[i].status.asleep
      {
        var t := k.view.asleep[i];
        assert M.Exists(k.view, t) && M.TaskOk(k.view, t);
        TaskNames(k, t);
      }
    }
  }

  lemma DeadAwake(s: M.State, u: Tid)
    requires M.Inv(s) && u in s.dead
    ensures u in s.info && !s.info[u].status.asleep && !M.InTable(s, u)
  {
    hide M.Cpus, M.Queues, M.RunsSomewhere, M.IsIdle;
    assert M.Exists(s, u) && M.TaskOk(s, u);
  }

  lemma TableTask(s: M.State, t: Tid)
    requires M.Inv(s) && M.InTable(s, t)
    ensures t !in s.dead && (s.info[t].status.asleep <==> t in s.asleep)
  {
    hide M.Cpus, M.Queues, M.Exists, M.RunsSomewhere, M.IsIdle;
    assert M.TaskOk(s, t);
  }

  lemma SameQueuesApart(s: M.State, n: M.State)
    requires Apart(s) && n.asleep == s.asleep && n.dead == s.dead && n.info.Keys == s.info.Keys
    ensures Apart(n)
  {
  }

  lemma ValidTid(k: Kernel, tid: Tid)
    requires k.Synced()
    ensures k.IsTidValid(tid) <==> M.InTable(k.view, tid)
    ensures M.InTable(k.view, tid) ==>
              && tid in k.tasks && k.all[tid] == k.tasks[tid] && k.tasks[tid].tid == tid
              && k.tasks[tid].status == k.view.info[tid].status
    ensures |k.all| == |k.view.slots|
  {
    hide CpusSynced, Chain;
    assert tid in k.tasks ==> TaskSynced(k.tasks, k.view.info, tid);
  }

  lemma MarkedApart(s: M.State, t: Tid, wake: nat)
    requires M.Inv(s) && M.InTable(s, t) && !s.info[t].status.asleep
    ensures Apart(M.Marked(s, t, wake)) && M.Sorted(M.Marked(s, t, wake))
    ensures t !in s.asleep && t !in s.dead
    ensures M.SleepAt(M.Marked(s, t, wake), wake, 0) == M.SleepAt(s, wake, 0)
  {
    InvApart(s);
    hide M.Cpus, M.Exists, M.RunsSomewhere, M.IsIdle, M.Distinct;
    assert M.TaskOk(s, t);
    SameSleepAt(s, M.Marked(s, t, wake), wake, 0);
  }

  lemma {:induction false} SameSleepAt(s: M.State, n: M.State, w: nat, i: nat)
    requires n.asleep == s.asleep && i <= |s.asleep|
    requires forall t <- s.asleep :: t in s.info && t in n.info && n.info[t].wake == s.info[t].wake
    ensures M.SleepAt(n, w, i) == M.SleepAt(s, w, i)
    decreases |s.asleep| - i
  {
    if i < |s.asleep| {
      SameSleepAt(s, n, w, i + 1);
    }
  }

  lemma LinksOf(k: Kernel, at: nat)
    requires k.Synced() && at < |k.view.asleep|
    ensures k.view.asleep[at] in k.tasks
    ensures at > 0 ==> k.view.asleep[at - 1] in k.tasks
    ensures k.tasks[k.view.asleep[at]].prev == if at == 0 then null else k.tasks[k.view.asleep[at - 1]]
  {
    hide SlotsSynced, CpusSynced, TasksSynced;
    assert Objects(k.tasks, k.view.asleep)[at] == k.tasks[k.view.asleep[at]];
  }

  lemma FrontOf(k: Kernel)
    requires k.Synced()
    ensures k.asleep.front == null <==> k.view.asleep == []
  {
    hide SlotsSynced, CpusSynced, TasksSynced;
  }

  lemma NotQueued(k: Kernel, t: Task)
    requires k.Synced() && t.tid in k.tasks && k.tasks[t.tid] == t
    ensures t.tid !in k.view.asleep ==> t !in Objects(k.tasks, k.view.asleep)
    ensures t.tid !in k.view.dead ==> t !in Objects(k.tasks, k.view.dead)
  {
    hide SlotsSynced, CpusSynced, Queue.Holds;
    forall u | u in k.tasks
      ensures k.tasks[u].tid == u
    {
      assert TaskSynced(k.tasks, k.view.info, u);
    }
  }

  /** A task that wakes before all others goes to the back. */
  lemma SleepsLast(s: M.State, w: nat)
    requires M.Known(s) && M.Sorted(s) && s.asleep != [] && s.info[s.asleep[|s.asleep| - 1]].wake > w
    ensures M.SleepAt(s, w, 0) == |s.asleep|
  {
    hide M.SleepAt, M.Distinct;
    forall i | 0 <= i < |s.asleep|
      ensures s.info[s.asleep[i]].wake > w
    {
      assert s.info[s.asleep[i]].wake >= s.info[s.asleep[|s.asleep| - 1]].wake;
    }
  }

  /** The object for t says so. */
  lemma TaskNames(k: Kernel, t: Tid)
    requires k.Synced() && (t in k.view.info || t in k.tasks)
    ensures t in k.view.info && t in k.tasks && k.tasks[t].tid == t && k.tasks[t].status == k.view.info[t].status
    ensures k.tasks[t].wakeuptime == k.view.info[t].wake
  {
    hide SlotsSynced, CpusSynced, Chain;
    assert TaskSynced(k.tasks, k.view.info, t);
  }

  lemma CurrentTask(k: Kernel, c: Cpu)
    requires k.Valid() && c in k.running
    ensures c in k.view.running && k.view.running[c] in k.view.info && c in k.idle && c in k.view.idle
    ensures k.running[c].tid == k.view.running[c] && k.running[c].status == k.view.info[k.view.running[c]].status
    ensures k.view.running[c] in k.tasks && k.tasks[k.view.running[c]] == k.running[c]
  {
    hide SlotsSynced, TasksSynced, Chain, M.Tasks, M.Queues;
    M.CpusExist(k.view, c);
    TaskNames(k, k.view.running[c]);
  }

  lemma InvApart(s: M.State)
    requires M.Inv(s)
    ensures Apart(s)
  {
    hide M.Cpus, M.RunsSomewhere, M.IsIdle, M.Distinct;
    forall t | t in s.asleep || t in s.dead
      ensures t in s.info && !(t in s.asleep && t in s.dead)
    {
      assert M.Exists(s, t) && M.TaskOk(s, t);
    }
  }

  lemma ReleaseApart(s: M.State, t: Tid)
    requires Apart(s) && t in s.info
    ensures Apart(M.SetStatus(s, t, s.info[t].status.(running := false)))
  {
  }

  /** The back pointer of the sleep queue is the task the model has last. */
  lemma BackOf(k: Kernel)
    requires k.Synced() && Apart(k.view)
    ensures M.Known(k.view)
    ensures k.asleep.back == null <==> k.view.asleep == []
    ensures k.view.asleep != [] ==>
              var last := k.view.asleep[|k.view.asleep| - 1];
              && last in k.tasks && last in k.view.info && k.asleep.back == k.tasks[last]
              && k.tasks[last].tid == last && TaskSynced(k.tasks, k.view.info, last)
              && k.tasks[last].wakeuptime == k.view.info[last].wake && k.tasks[last].status == k.view.info[last].status
  {
    hide SlotsSynced, CpusSynced, M.Distinct;
    if k.view.asleep != [] {
      assert TaskSynced(k.tasks, k.view.info, k.view.asleep[|k.view.asleep| - 1]);
    }
  }

  lemma WakeApart(s: M.State)
    requires Apart(s) && s.asleep != []
    ensures s.asleep[|s.asleep| - 1] in s.info && Apart(M.WakeLast(s))
  {
  }

  /** The queues mention tasks that exist, no task twice, and no task in both. */
  ghost predicate Apart(s: M.State) {
    && M.Distinct(s.asleep) && M.Distinct(s.dead)
    && (forall t <- s.asleep :: t in s.info && t !in s.dead)
    && (forall t <- s.dead :: t in s.info)
  }

  lemma ObjectsApart(k: Kernel)
    requires k.Synced() && Apart(k.view)
    ensures forall x <- Objects(k.tasks, k.view.asleep) :: x !in Objects(k.tasks, k.view.dead)
  {
    hide Queue.Holds, SlotsSynced, CpusSynced, M.Distinct;
    forall i, j | 0 <= i < |k.view.asleep| && 0 <= j < |k.view.dead|
      ensures k.tasks[k.view.asleep[i]] != k.tasks[k.view.dead[j]]
    {
      assert TaskSynced(k.tasks, k.view.info, k.view.asleep[i]) && TaskSynced(k.tasks, k.view.info, k.view.dead[j]);
    }
  }
}

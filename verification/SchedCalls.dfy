/** What the critical sections of the scheduler do to the tasks, and what that means for the runs that
    follow. */
module SchedCalls {
  import opened Common
  import opened TaskQueue
  import opened SchedModel

  /** Processors, table and dead queue stay as they are, and so do all tasks but t. */
  ghost predicate OnlyTask(s: State, n: State, t: Tid) {
    && n.running == s.running && n.idle == s.idle && n.slots == s.slots && n.dead == s.dead
    && n.info.Keys == s.info.Keys
    && forall u <- s.info | u != t :: n.info[u] == s.info[u]
  }

  // ----- sched_sleep -----

  /** The task that runs on c is asleep until wake, as one more task of the sleep queue; its other bits and
      all other tasks stay. */
  lemma SleepMeaning(s: State, c: Cpu, wake: nat)
    requires Inv(s) && c in s.running && InTable(s, s.running[c]) && !s.info[s.running[c]].status.asleep
    ensures var n, t := Sleep(s, c, wake), s.running[c];
            && OnlyTask(s, n, t)
            && n.info[t].wake == wake && n.info[t].status == s.info[t].status.(asleep := true)
            && t !in s.asleep && forall u :: u in n.asleep <==> u == t || u in s.asleep
  {
    hide Cpus, Sorted, RunsSomewhere, IsIdle, Exists, SleepAt;
    assert TaskOk(s, s.running[c]);
    Inserted(s.asleep, s.running[c], SleepAt(s, wake, 0));
    hide Distinct;
  }

  /** In every run in which a task goes to sleep first: it sleeps, until wake, through all steps whose clock
      readings are at most wake, and the first context switch with a later first reading wakes it. */
  lemma SleepsUntilItsTime(run: seq<State>, steps: seq<Step>, c: Cpu, wake: nat, i: nat)
    requires IsRun(run, steps) && Inv(run[0]) && 0 < i < |run| && steps[0] == DoSleep(c, wake)
    requires forall j, k :: 0 < j < i && steps[j].DoSwitch? ==> steps[j].clock(k) <= wake
    ensures c in run[0].running
    ensures var t := run[0].running[c];
            && t in run[i].info && run[i].info[t].status.asleep && run[i].info[t].wake == wake
            && (i < |steps| && steps[i].DoSwitch? && steps[i].clock(0) > wake ==>
                  t in run[i + 1].info && !run[i + 1].info[t].status.asleep)
  {
    hide Inv, Sleep, Switch, Marked;
    assert Follows(run[0], steps[0], run[1]);
    SleepMeaning(run[0], c, wake);
    SleepKeepsInvExactly(run[0], c, wake);
    var t, later, rest := run[0].running[c], run[1..], steps[1..];
    assert IsRun(later, rest) by {
      forall j | 0 <= j < |rest|
        ensures Follows(later[j], rest[j], later[j + 1])
      {
        assert Follows(run[j + 1], steps[j + 1], run[j + 2]);
      }
    }
    StaysAsleep(later, rest, t, i - 1);
    if i < |steps| && steps[i].DoSwitch? {
      assert Follows(run[i], steps[i], run[i + 1]);
      RunKeepsInv(run, steps, i);
      WakesAllAndNoneEarly(run[i], steps[i].c, steps[i].clock, t);
    }
  }

  // ----- sched_block, sched_unblock -----

  /** A task of the table is blocked afterwards, and nothing else changes. */
  lemma BlockMeaning(s: State, t: Tid)
    ensures InTable(s, t) ==>
              var n := Block(s, t);
              && OnlyTask(s, n, t) && n.asleep == s.asleep && n.info[t].wake == s.info[t].wake
              && n.info[t].status == s.info[t].status.(blocked := true)
    ensures !InTable(s, t) ==> Block(s, t) == s
  {
  }

  /** A task of the table is not blocked afterwards, and nothing else changes. */
  lemma UnblockMeaning(s: State, t: Tid)
    ensures InTable(s, t) ==>
              var n := Unblock(s, t);
              && OnlyTask(s, n, t) && n.asleep == s.asleep && n.info[t].wake == s.info[t].wake
              && n.info[t].status == s.info[t].status.(blocked := false)
              && (!s.info[t].status.asleep ==> Runnable(n, t))
    ensures !InTable(s, t) ==> Unblock(s, t) == s
  {
  }

  /** The step neither blocks t nor kills it, nor is it t that goes to sleep. */
  ghost predicate LeavesAlone(s: State, step: Step, t: Tid) {
    match step
    case DoBlock(u) => u != t
    case DoKill(u) => u != t
    case DoSleep(c, _) => c in s.running ==> s.running[c] != t
    case _ => true
  }

  /** A runnable task that is left alone stays runnable. */
  lemma StaysRunnable(s: State, step: Step, t: Tid)
    requires Inv(s) && Enabled(s, step) && Runnable(s, t) && LeavesAlone(s, step, t)
    ensures Runnable(Next(s, step), t)
  {
    hide Queues, Exists, RunsSomewhere, IsIdle, Switch, Distinct, Sorted;
    assert TaskOk(s, t);
    if step.DoSwitch? {
      CpusExist(s, step.c);
      SwitchTask(s, step.c, step.clock, t);
      SwitchBits(s, step.c, step.clock, t);
    }
    hide Cpus;
    if step.DoReap? || step.DoStart? {
      NoTaskBeyond(s);
    }
    hide Inv;
  }

  /** What a context switch does to a task: its time and its blocked and dead bits stay, it may be woken, and
      its running bit is set for the chosen task and cleared for the one that ran before. */
  lemma SwitchBits(s: State, c: Cpu, clock: nat -> nat, t: Tid)
    requires Inv(s) && c in s.running && t in s.info
    ensures s.running[c] in s.info
    ensures var n := Switch(s, c, clock);
            && n.slots == s.slots && n.idle == s.idle && n.dead == s.dead && n.info.Keys == s.info.Keys
            && c in n.running && n.running == s.running[c := n.running[c]]
            && n.info[t].wake == s.info[t].wake
            && n.info[t].status.blocked == s.info[t].status.blocked && n.info[t].status.dead == s.info[t].status.dead
            && (n.info[t].status.asleep ==> s.info[t].status.asleep)
            && n.info[t].status.running == (t == n.running[c] || (t != s.running[c] && s.info[t].status.running))
  {
    SwitchShape(s, c, clock);
    BeforeShape(s, c, clock);
    BeforeInfo(s, c, clock, t);
    assert TaskOk(s, t);
    hide Switch, BeforeChoice, Chosen, Inv, RunsSomewhere, IsIdle;
  }

  lemma {:induction false} SwitchesLater(steps: seq<Step>, c: Cpu, i: nat)
    requires 0 < i <= |steps| && !steps[0].DoSwitch?
    ensures Switches(steps, c, i) == Switches(steps[1..], c, i - 1)
  {
    if i > 1 {
      SwitchesLater(steps, c, i - 1);
    }
  }

  lemma {:induction false} RunnableThroughout(run: seq<State>, steps: seq<Step>, t: Tid, i: nat)
    requires IsRun(run, steps) && Inv(run[0]) && i < |run| && Runnable(run[0], t)
    requires forall j :: 0 <= j < i ==> LeavesAlone(run[j], steps[j], t)
    ensures Runnable(run[i], t)
  {
    hide Inv, Next, Enabled, Runnable, LeavesAlone;
    if i > 0 {
      RunnableThroughout(run, steps, t, i - 1);
      RunKeepsInv(run, steps, i - 1);
      assert Follows(run[i - 1], steps[i - 1], run[i]);
      StaysRunnable(run[i - 1], steps[i - 1], t);
    }
  }

  lemma LaterRun(run: seq<State>, steps: seq<Step>)
    requires IsRun(run, steps) && steps != [] && Inv(run[0])
    ensures IsRun(run[1..], steps[1..]) && Inv(run[1]) && Follows(run[0], steps[0], run[1])
  {
    hide Inv, Next, Enabled;
    RunKeepsInv(run, steps, 1);
    assert Follows(run[0], steps[0], run[1]);
    forall j | 0 <= j < |steps| - 1
      ensures Follows(run[1..][j], steps[1..][j], run[1..][j + 1])
    {
      assert Follows(run[j + 1], steps[j + 1], run[j + 2]);
    }
  }

  /** A task of the table that is unblocked, and then left alone, runs after at most |slots| context switches
      of any one processor. */
  lemma UnblockedGetsToRun(run: seq<State>, steps: seq<Step>, c: Cpu, t: Tid)
    requires IsRun(run, steps) && Inv(run[0]) && c in run[0].running && steps != [] && steps[0] == DoUnblock(t)
    requires InTable(run[0], t) && !run[0].info[t].status.asleep
    requires forall j :: 0 < j < |steps| ==> LeavesAlone(run[j], steps[j], t)
    requires forall j :: 0 <= j < |run| ==> |run[j].slots| == |run[0].slots|
    requires Switches(steps, c, |steps|) >= |run[0].slots|
    ensures exists i :: 0 <= i < |run| && RunsSomewhere(run[i], t)
  {
    hide Inv, Switches, RunsSomewhere, LeavesAlone;
    LaterRun(run, steps);
    UnblockMeaning(run[0], t);
    var later, rest := run[1..], steps[1..];
    hide IsRun, Runnable, OnlyTask, Unblock;
    forall j | 0 <= j < |later|
      ensures Runnable(later[j], t)
    {
      forall k | 0 <= k < j
        ensures LeavesAlone(later[k], rest[k], t)
      {
        assert LeavesAlone(run[k + 1], steps[k + 1], t);
      }
      RunnableThroughout(later, rest, t, j);
    }
    SwitchesLater(steps, c, |steps|);
    BoundedWaiting(later, rest, c, t);
    var i :| 0 <= i < |later| && RunsSomewhere(later[i], t);
    assert RunsSomewhere(run[i + 1], t);
  }

  /** What a context switch leaves running on its processor is the idle task, or a task of the table that is
      neither blocked nor asleep nor dead. */
  lemma PickedIsRunnable(s: State, c: Cpu, clock: nat -> nat)
    requires Inv(s) && c in s.running
    ensures s.running[c] in s.info && c in s.idle
    ensures var n := Switch(s, c, clock);
            && c in n.running && n.running[c] in n.info
            && (n.running[c] == s.idle[c] || Runnable(n, n.running[c]))
  {
    ChosenIsReadyOrIdle(s, c, clock);
    SwitchShape(s, c, clock);
    BeforeShape(s, c, clock);
    hide Inv, Switch, BeforeChoice, Chosen;
  }

  /** A step that does not unblock a blocked task of the table leaves it blocked, and no processor that did
      not run it before runs it afterwards. */
  lemma StepKeepsBlocked(s: State, step: Step, t: Tid, c: Cpu)
    requires Inv(s) && Enabled(s, step) && step != DoUnblock(t)
    requires InTable(s, t) && s.info[t].status.blocked && InTable(Next(s, step), t)
    ensures Next(s, step).info[t].status.blocked
    ensures c in Next(s, step).running && Next(s, step).running[c] == t ==> c in s.running && s.running[c] == t
  {
    hide Queues, Exists, RunsSomewhere, Switch, Distinct, Sorted, Choose;
    NoTaskBeyond(s);
    assert TaskOk(s, t);
    if step.DoSwitch? {
      var d := step.c;
      CpusExist(s, d);
      SwitchBits(s, d, step.clock, t);
      PickedIsRunnable(s, d, step.clock);
      assert IsIdle(s, s.idle[d]);
    }
    hide Inv, IsIdle;
  }

  /** In every run a blocked task stays blocked until it is unblocked, and until then no processor starts to
      run it: whichever runs it has run it since it was blocked. */
  lemma {:induction false} BlockedDoesNotStart(run: seq<State>, steps: seq<Step>, t: Tid, c: Cpu, i: nat)
    requires IsRun(run, steps) && Inv(run[0]) && i < |run|
    requires forall j :: 0 <= j <= i ==> InTable(run[j], t)
    requires InTable(run[0], t) && run[0].info[t].status.blocked
    requires forall j :: 0 <= j < i ==> steps[j] != DoUnblock(t)
    ensures InTable(run[i], t) && run[i].info[t].status.blocked
    ensures c in run[i].running && run[i].running[c] == t ==> c in run[0].running && run[0].running[c] == t
  {
    hide Inv, Next, Enabled;
    if i > 0 {
      BlockedDoesNotStart(run, steps, t, c, i - 1);
      RunKeepsInv(run, steps, i - 1);
      assert Follows(run[i - 1], steps[i - 1], run[i]);
      StepKeepsBlocked(run[i - 1], steps[i - 1], t, c);
    }
  }

  // ----- sched_kill, sched_add, sched_init, sched_janitor -----

  /** A task that is not asleep is dead afterwards, off the table and first in the dead queue; its other bits,
      all other tasks and what runs stay. */
  lemma KillMeaning(s: State, t: Tid)
    requires InTable(s, t)
    ensures var n := Kill(s, t);
            && !InTable(n, t) && n.dead == [t] + s.dead && n.asleep == s.asleep
            && n.running == s.running && n.idle == s.idle && n.info.Keys == s.info.Keys
            && n.info[t].wake == s.info[t].wake && n.info[t].status == s.info[t].status.(dead := true)
            && (forall u <- s.info | u != t :: n.info[u] == s.info[u])
            && |n.slots| == |s.slots| && forall u :: 0 <= u < |s.slots| && u != t ==> n.slots[u] == s.slots[u]
    ensures forall u :: !InTable(s, u) ==> Kill(s, u) == s
  {
  }

  /** No processor starts to run a dead task. */
  lemma StepKeepsDead(s: State, step: Step, t: Tid, c: Cpu)
    requires Inv(s) && Enabled(s, step) && t in s.dead && t in Next(s, step).dead
    ensures c in Next(s, step).running && Next(s, step).running[c] == t ==> c in s.running && s.running[c] == t
  {
    hide Queues, RunsSomewhere, Switch, Distinct, Sorted, Choose;
    NoTaskBeyond(s);
    assert Exists(s, t) && TaskOk(s, t);
    if step.DoSwitch? {
      var d := step.c;
      CpusExist(s, d);
      SwitchBits(s, d, step.clock, t);
      PickedIsRunnable(s, d, step.clock);
      assert IsIdle(s, s.idle[d]);
    }
    hide Inv, IsIdle, Exists;
  }

  lemma {:induction false} DeadDoesNotStart(run: seq<State>, steps: seq<Step>, t: Tid, c: Cpu, i: nat)
    requires IsRun(run, steps) && Inv(run[0]) && i < |run|
    requires forall j :: 0 <= j <= i ==> t in run[j].dead
    ensures c in run[i].running && run[i].running[c] == t ==> c in run[0].running && run[0].running[c] == t
  {
    hide Inv, Next, Enabled;
    if i > 0 {
      DeadDoesNotStart(run, steps, t, c, i - 1);
      RunKeepsInv(run, steps, i - 1);
      assert Follows(run[i - 1], steps[i - 1], run[i]);
      StepKeepsDead(run[i - 1], steps[i - 1], t, c);
    }
  }

  /** A new task is in the table and can run; all other tasks, their slots and the queues stay. */
  lemma AddMeaning(s: State, t: Tid, fill: nat -> bool)
    requires Inv(s) && t !in s.info && forall u <- s.info :: u < t
    ensures var n := Add(s, t, fill);
            && Runnable(n, t) && n.info.Keys == s.info.Keys + {t} && n.info[t] == Info(READY, 0)
            && (forall u <- s.info :: n.info[u] == s.info[u] && InTable(n, u) == InTable(s, u))
            && n.running == s.running && n.idle == s.idle && n.asleep == s.asleep && n.dead == s.dead
  {
    NoTaskBeyond(s);
    hide Inv;
  }

  /** A new processor runs a new task, its idle task, which is not in the table; everything else stays. */
  lemma StartMeaning(s: State, c: Cpu)
    requires Inv(s) && c !in s.running
    ensures var n := Start(s, c);
            && c in n.running && c in n.idle && n.running[c] == n.idle[c]
            && n.running == s.running[c := n.idle[c]] && n.idle == s.idle[c := n.idle[c]]
            && n.idle[c] !in s.info && n.idle[c] in n.info && !InTable(n, n.idle[c])
            && n.info == s.info[n.idle[c] := Info(READY, 0)]
            && (forall u <- s.info :: InTable(n, u) == InTable(s, u))
            && n.asleep == s.asleep && n.dead == s.dead
  {
    NoTaskBeyond(s);
    hide Inv;
  }

  /** The dead are gone, and everything else stays. */
  lemma ReapMeaning(s: State)
    ensures var n := Reap(s);
            && n.dead == [] && n.slots == s.slots && n.asleep == s.asleep
            && n.running == s.running && n.idle == s.idle
            && forall u :: (u in n.info <==> u in s.info && u !in s.dead) && (u in n.info ==> n.info[u] == s.info[u])
  {
  }
}

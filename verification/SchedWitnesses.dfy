/** Runs from boot that reach the calls which break the scheduler. */
module SchedWitnesses {
  import opened Common
  import opened TaskQueue
  import opened SchedModel

  /** A clock that stands still at zero. */
  function Midnight(k: nat): nat { 0 }

  /** Processor 0 has started on its idle task 0, and task 1 has been added. */
  const ADDED := State(
    map[0 := Info(READY, 0), 1 := Info(READY, 0)], [false, true], map[0 := 0], map[0 := 0], [], [])

  /** Processor 0 runs it. */
  const STARTED := State(
    map[0 := Info(READY, 0), 1 := Info(READY.(running := true), 0)], [false, true],
    map[0 := 1], map[0 := 0], [], [])

  lemma StartedReachable()
    ensures Reachable(STARTED)
  {
    hide Inv, Switch, Reachable, RunsSomewhere;
    var idle := Start(BOOT, 0);
    BootReachable();
    NextReachable(BOOT, DoStart(0));
    var added := Add(idle, 1, Zeros);
    assert added == ADDED;
    NextReachable(idle, DoAdd(1, Zeros));
    NextReachable(added, DoSwitch(0, Midnight));
    SwitchesToOne();
  }

  lemma SwitchesToOne()
    ensures Switch(ADDED, 0, Midnight) == STARTED
  {
    var b := BeforeChoice(ADDED, 0, Midnight);
    assert b == ADDED;
    assert Ready(b, 1);
    assert FirstReady(b, 1, 2) == Some(1);
  }

  /** A task that was killed while it runs, and sleeps before it is switched away: sleeping breaks the
      invariant. So does the janitor that frees it meanwhile. */
  lemma KilledWhileRunning(wake: nat)
    ensures var s := Kill(STARTED, 1);
            && Reachable(s) && Inv(s) && 0 in s.running && s.running[0] in s.info
            && !Inv(Sleep(s, 0, wake)) && !Inv(Reap(s))
  {
    hide Inv, Reachable;
    StartedReachable();
    NextReachable(STARTED, DoKill(1));
    var s := Kill(STARTED, 1);
    SleepKeepsInvExactly(s, 0, wake);
    assert s.running[0] == 1 && s.dead == [1];
    assert RunsSomewhere(s, 1);
    ReapKeepsInvExactly(s);
  }

  /** A task that has gone to sleep and still runs: for it, sched_kill breaks the sleep queue. */
  lemma SleeperInTable(wake: nat)
    ensures var s := Sleep(STARTED, 0, wake);
            Reachable(s) && InTable(s, 1) && s.info[1].status.asleep && s.asleep == [1]
  {
    hide Inv, Reachable;
    StartedReachable();
    NextReachable(STARTED, DoSleep(0, wake));
  }

  /** Two tasks with the tids 1 and 2 that are added in the wrong order: the second add cuts the first task
      off the table. The first one already breaks the invariant when the slot that it skips happens not to
      be empty. */
  lemma AddedOutOfOrder(fill: nat -> bool)
    ensures var s := Start(BOOT, 0);
            && Reachable(s) && (Inv(Add(s, 2, fill)) <==> !fill(1))
            && var early := Add(s, 2, Zeros);
               && Reachable(early) && Inv(early) && InTable(early, 2)
               && !Inv(Add(early, 1, fill)) && !InTable(Add(early, 1, fill), 2)
  {
    hide Inv, Reachable;
    BootReachable();
    NextReachable(BOOT, DoStart(0));
    var s := Start(BOOT, 0);
    AddKeepsInvExactly(s, 2, fill);
    NextReachable(s, DoAdd(2, Zeros));
    var early := Add(s, 2, Zeros);
    assert 2 in early.info;
    AddKeepsInvExactly(early, 1, fill);
  }
}

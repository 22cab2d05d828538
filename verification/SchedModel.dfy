/** The scheduler as values: one function for every critical section of sched_lock, and what all runs
    of them keep. */
module SchedModel {
  import opened Common
  import opened TaskQueue

  type Tid = nat
  type Cpu = nat

  datatype Info = Info(status: Status, wake: nat)

  /** info: the tasks that exist; slots[t]: tasks_all holds task t; the queues from front to back. */
  datatype State = State(
    info: map<Tid, Info>, slots: seq<bool>,
    running: map<Cpu, Tid>, idle: map<Cpu, Tid>,
    asleep: seq<Tid>, dead: seq<Tid>)

  /** Readings of the clock in the order they are made. */
  ghost predicate Clock(clock: nat -> nat) {
    forall i, j :: 0 <= i <= j ==> clock(i) <= clock(j)
  }

  predicate InTable(s: State, t: Tid) { t < |s.slots| && s.slots[t] && t in s.info }

  predicate Ready(s: State, t: Tid) { InTable(s, t) && s.info[t].status == READY }

  function SetStatus(s: State, t: Tid, status: Status): State
    requires t in s.info
  {
    s.(info := s.info[t := s.info[t].(status := status)])
  }

  // ----- _do_context_switch -----

  /** Pops tasks off the back while their time is before the clock reading. */
  function WakeUp(s: State, clock: nat -> nat, k: nat): (n: State)
    decreases |s.asleep|
    ensures n.slots == s.slots && n.running == s.running && n.idle == s.idle && n.dead == s.dead
    ensures n.info.Keys == s.info.Keys
  {
    if s.asleep == [] then s
    else
      var t := s.asleep[|s.asleep| - 1];
      if t !in s.info || s.info[t].wake >= clock(k) then s
      else
        var woken := SetStatus(s, t, s.info[t].status.(asleep := false));
        WakeUp(woken.(asleep := s.asleep[..|s.asleep| - 1]), clock, k + 1)
  }

  /** The first ready task among lo, lo + 1, ..., hi - 1. */
  function FirstReady(s: State, lo: nat, hi: nat): (r: Option<Tid>)
    decreases hi - lo
    ensures r.Some? ==> lo <= r.value < hi && Ready(s, r.value) && forall t :: lo <= t < r.value ==> !Ready(s, t)
    ensures r.None? ==> forall t :: lo <= t < hi ==> !Ready(s, t)
  {
    if lo >= hi then None
    else if Ready(s, lo) then Some(lo)
    else FirstReady(s, lo + 1, hi)
  }

  /** The choice: after the current task, then from the start up to and including it, then idle. */
  function Choose(s: State, cur: Tid, idle: Tid): Tid {
    match FirstReady(s, cur + 1, |s.slots|)
    case Some(t) => t
    case None =>
      match FirstReady(s, 0, cur + 1)
      case Some(t) => t
      case None => idle
  }

  /** The state when the choice is made: the current task released, sleepers woken. */
  function BeforeChoice(s: State, c: Cpu, clock: nat -> nat): State
    requires c in s.running && s.running[c] in s.info
  {
    var cur := s.running[c];
    WakeUp(SetStatus(s, cur, s.info[cur].status.(running := false)), clock, 0)
  }

  function Switch(s: State, c: Cpu, clock: nat -> nat): State
    requires c in s.running && s.running[c] in s.info
  {
    var b := BeforeChoice(s, c, clock);
    var next := Choose(b, s.running[c], if c in s.idle then s.idle[c] else s.running[c]);
    if next !in b.info then b
    else SetStatus(b, next, b.info[next].status.(running := true)).(running := b.running[c := next])
  }

  // ----- sched_sleep -----

  /** Where add_sleeping_sorted puts a task that wakes at w. */
  function SleepAt(s: State, w: nat, i: nat): (at: nat)
    requires i <= |s.asleep|
    decreases |s.asleep| - i
    ensures i <= at <= |s.asleep|
    ensures at < |s.asleep| && s.asleep[at] in s.info ==> s.info[s.asleep[at]].wake <= w
    ensures forall j :: i <= j < at && s.asleep[j] in s.info ==> s.info[s.asleep[j]].wake > w
  {
    if i == |s.asleep| then i
    else if s.asleep[i] !in s.info || s.info[s.asleep[i]].wake <= w then i
    else SleepAt(s, w, i + 1)
  }

  /** Task t marked as asleep until wake, but not queued yet. */
  function Marked(s: State, t: Tid, wake: nat): State
    requires t in s.info
  {
    s.(info := s.info[t := Info(s.info[t].status.(asleep := true), wake)])
  }

  function Sleep(s: State, c: Cpu, wake: nat): State
    requires c in s.running && s.running[c] in s.info
  {
    var t := s.running[c];
    var at := SleepAt(s, wake, 0);
    Marked(s, t, wake).(asleep := s.asleep[..at] + [t] + s.asleep[at..])
  }

  // ----- sched_kill, sched_block, sched_unblock, sched_add, sched_init, sched_janitor -----

  /** For a task that is not asleep; see Scheduler.Kill for the other case. */
  function Kill(s: State, t: Tid): State {
    if !InTable(s, t) then s
    else SetStatus(s, t, s.info[t].status.(dead := true)).(slots := s.slots[t := false], dead := [t] + s.dead)
  }

  function Block(s: State, t: Tid): State {
    if !InTable(s, t) || s.info[t].status.blocked then s
    else SetStatus(s, t, s.info[t].status.(blocked := true))
  }

  function Unblock(s: State, t: Tid): State {
    if !InTable(s, t) || !s.info[t].status.blocked then s
    else SetStatus(s, t, s.info[t].status.(blocked := false))
  }

  /** The table after vec_resize to t + 1 slots and the write of slot t. fill(u) is whether a slot u that
      nobody has written yet happens to hold something. */
  function Resized(slots: seq<bool>, t: Tid, fill: nat -> bool): (n: seq<bool>)
    ensures |n| == t + 1 && n[t]
    ensures forall u :: 0 <= u < t ==> n[u] == if u < |slots| then slots[u] else fill(u)
  {
    seq(t + 1, u requires 0 <= u => if u == t then true else if u < |slots| then slots[u] else fill(u))
  }

  /** Memory of zeros. */
  function Zeros(u: nat): bool { false }

  /** Adds a new task with tid t; the table ends at t afterwards. */
  function Add(s: State, t: Tid, fill: nat -> bool): State {
    s.(info := s.info[t := Info(READY, 0)], slots := Resized(s.slots, t, fill))
  }

  /** A new processor: its idle task takes a tid but no slot, and runs. */
  function Start(s: State, c: Cpu): State {
    var t := |s.slots|;
    s.(info := s.info[t := Info(READY, 0)], slots := s.slots + [false],
       idle := s.idle[c := t], running := s.running[c := t])
  }

  /** The janitor frees every dead task. */
  function Reap(s: State): State {
    s.(info := s.info - (set t | t in s.dead), dead := [])
  }

  // ----- The invariant -----

  ghost predicate Distinct(q: seq<Tid>) {
    forall i, j :: 0 <= i < j < |q| ==> q[i] != q[j]
  }

  /** Latest at the front, earliest at the back. */
  ghost predicate Sorted(s: State) {
    forall i, j :: 0 <= i < j < |s.asleep| && s.asleep[i] in s.info && s.asleep[j] in s.info ==>
      s.info[s.asleep[i]].wake >= s.info[s.asleep[j]].wake
  }

  ghost predicate RunsSomewhere(s: State, t: Tid) {
    exists c <- s.running :: s.running[c] == t
  }

  ghost predicate IsIdle(s: State, t: Tid) {
    exists c <- s.idle :: s.idle[c] == t
  }

  /** No task runs on two processors, and each idle task runs only on its own. */
  ghost predicate PairOk(s: State, c: Cpu, d: Cpu) {
    && c in s.running && d in s.running && c in s.idle && d in s.idle
    && s.running[c] in s.info && s.idle[c] in s.info
    && (s.running[c] == s.running[d] ==> c == d)
    && (s.idle[c] == s.running[d] ==> c == d)
    && (s.idle[c] == s.idle[d] ==> c == d)
  }

  /** A task in the table has its running bit set exactly when some processor runs it. Outside the
      table there are only idle tasks and dead ones. The queues hold exactly the sleeping and the dead
      tasks. */
  ghost predicate TaskOk(s: State, t: Tid) {
    && t in s.info && t < |s.slots|
    && var x := s.info[t].status;
       && (s.slots[t] ==> !x.dead && !IsIdle(s, t) && (x.running <==> RunsSomewhere(s, t)))
       && (!s.slots[t] ==> !x.asleep && (x.dead <==> !IsIdle(s, t)))
       && (x.asleep <==> t in s.asleep)
       && (x.dead <==> t in s.dead)
  }

  /** What the table and the queues mention exists. */
  ghost predicate Exists(s: State, t: Tid) {
    (t < |s.slots| && s.slots[t]) || t in s.asleep || t in s.dead ==> t in s.info
  }

  ghost predicate Cpus(s: State) {
    && s.running.Keys == s.idle.Keys
    && forall c, d {:trigger PairOk(s, c, d)} :: c in s.running && d in s.running ==> PairOk(s, c, d)
  }

  ghost predicate Tasks(s: State) {
    && (forall t {:trigger TaskOk(s, t)} :: t in s.info ==> TaskOk(s, t))
    && (forall t {:trigger Exists(s, t)} :: Exists(s, t))
  }

  ghost predicate Queues(s: State) {
    Distinct(s.asleep) && Distinct(s.dead) && Sorted(s)
  }

  ghost predicate Inv(s: State) {
    Cpus(s) && Tasks(s) && Queues(s)
  }

  // ----- Waking up -----

  /** The part of the sleep queue that stays asleep. */
  function Left(s: State, clock: nat -> nat, k: nat): nat {
    |WakeUp(s, clock, k).asleep|
  }

  ghost predicate Known(s: State) {
    Distinct(s.asleep) && forall t <- s.asleep :: t in s.info
  }

  /** The state after the last task of the queue has been woken. */
  function WakeLast(s: State): State
    requires s.asleep != [] && s.asleep[|s.asleep| - 1] in s.info
  {
    var t := s.asleep[|s.asleep| - 1];
    SetStatus(s, t, s.info[t].status.(asleep := false)).(asleep := s.asleep[..|s.asleep| - 1])
  }

  lemma WakeStep(s: State, clock: nat -> nat, k: nat)
    requires Known(s) && s.asleep != []
    ensures var t := s.asleep[|s.asleep| - 1];
            WakeUp(s, clock, k) == if s.info[t].wake < clock(k) then WakeUp(WakeLast(s), clock, k + 1) else s
    ensures Known(WakeLast(s))
  {
  }

  lemma WakeDone(s: State, clock: nat -> nat, k: nat)
    requires Known(s) && (s.asleep == [] || s.info[s.asleep[|s.asleep| - 1]].wake >= clock(k))
    ensures WakeUp(s, clock, k) == s
  {
  }

  lemma {:induction false} WakePrefix(s: State, clock: nat -> nat, k: nat)
    requires Known(s)
    ensures Left(s, clock, k) <= |s.asleep|
    ensures WakeUp(s, clock, k).asleep == s.asleep[..Left(s, clock, k)]
    decreases |s.asleep|
  {
    if s.asleep != [] {
      WakeStep(s, clock, k);
      if s.info[s.asleep[|s.asleep| - 1]].wake < clock(k) {
        WakePrefix(WakeLast(s), clock, k + 1);
      }
    }
  }

  /** A task keeps everything but its sleep bit, which goes exactly when it leaves the queue. */
  lemma {:induction false} WakeInfo(s: State, clock: nat -> nat, k: nat, t: Tid)
    requires Known(s) && t in s.info
    requires t in s.asleep ==> s.info[t].status.asleep
    ensures var n := WakeUp(s, clock, k);
            n.info[t] == if t in s.asleep && t !in n.asleep
                         then s.info[t].(status := s.info[t].status.(asleep := false)) else s.info[t]
    decreases |s.asleep|
  {
    if s.asleep != [] {
      WakeStep(s, clock, k);
      var last := s.asleep[|s.asleep| - 1];
      if s.info[last].wake < clock(k) {
        WakePrefix(WakeLast(s), clock, k + 1);
        assert s.asleep == WakeLast(s).asleep + [last];
        WakeInfo(WakeLast(s), clock, k + 1, t);
      }
    }
  }

  /** The task at position j is woken if its time, and that of all behind it, is past; the reading that
      decides is number |asleep| - 1 - j. */
  lemma {:induction false} WakeTimes(s: State, clock: nat -> nat, k: nat, j: nat)
    requires Known(s) && j < |s.asleep|
    ensures Left(s, clock, k) <= j ==> s.info[s.asleep[j]].wake < clock(k + |s.asleep| - 1 - j)
    ensures j + 1 == Left(s, clock, k) ==> s.info[s.asleep[j]].wake >= clock(k + |s.asleep| - 1 - j)
    decreases |s.asleep|
  {
    hide WakeUp, Distinct;
    WakeStep(s, clock, k);
    var last := |s.asleep| - 1;
    if s.info[s.asleep[last]].wake < clock(k) {
      WakePrefix(WakeLast(s), clock, k + 1);
      if j < last {
        WakeTimes(WakeLast(s), clock, k + 1, j);
        LastApart(s, j);
      }
    }
  }

  lemma LastApart(s: State, j: nat)
    requires Known(s) && j < |s.asleep| - 1
    ensures WakeLast(s).asleep[j] == s.asleep[j]
    ensures WakeLast(s).info[s.asleep[j]] == s.info[s.asleep[j]]
  {
  }

  lemma SleepersKnown(s: State)
    requires Inv(s)
    ensures Known(s)
  {
    forall t <- s.asleep
      ensures t in s.info
    {
      assert Exists(s, t);
    }
  }

  lemma WakesDue(s: State, clock: nat -> nat, t: Tid)
    requires Known(s) && Sorted(s) && Clock(clock) && t in s.asleep
    ensures s.info[t].wake < clock(0) ==> t !in WakeUp(s, clock, 0).asleep
    ensures t !in WakeUp(s, clock, 0).asleep ==> s.info[t].wake < clock(|s.asleep|)
  {
    hide WakeUp;
    WakePrefix(s, clock, 0);
    var left := Left(s, clock, 0);
    var j: nat :| j < |s.asleep| && s.asleep[j] == t;
    if j < left {
      assert WakeUp(s, clock, 0).asleep[j] == t;
      WakeTimes(s, clock, 0, left - 1);
      assert clock(0) <= clock(|s.asleep| - left);
      assert s.info[t].wake >= s.info[s.asleep[left - 1]].wake;
    } else {
      WakeTimes(s, clock, 0, j);
      assert clock(|s.asleep| - 1 - j) <= clock(|s.asleep|);
    }
  }

  // ----- The context switch keeps the invariant -----

  function Chosen(s: State, c: Cpu, clock: nat -> nat): Tid
    requires c in s.running && s.running[c] in s.info
  {
    Choose(BeforeChoice(s, c, clock), s.running[c], if c in s.idle then s.idle[c] else s.running[c])
  }

  /** What the release of the current task and the waking do to one task. */
  lemma BeforeInfo(s: State, c: Cpu, clock: nat -> nat, t: Tid)
    requires Inv(s) && c in s.running && t in s.info
    ensures s.running[c] in s.info
    ensures var b := BeforeChoice(s, c, clock);
            && t in b.info
            && b.info[t].wake == s.info[t].wake
            && b.info[t].status.blocked == s.info[t].status.blocked
            && b.info[t].status.dead == s.info[t].status.dead
            && b.info[t].status.running == (t != s.running[c] && s.info[t].status.running)
            && (b.info[t].status.asleep <==> t in b.asleep)
  {
    hide WakeUp;
    assert PairOk(s, c, c) && TaskOk(s, t);
    SleepersKnown(s);
    var cur := s.running[c];
    var r := SetStatus(s, cur, s.info[cur].status.(running := false));
    hide Inv;
    WakePrefix(r, clock, 0);
    WakeInfo(r, clock, 0, t);
  }

  lemma BeforeShape(s: State, c: Cpu, clock: nat -> nat)
    requires Inv(s) && c in s.running
    ensures s.running[c] in s.info
    ensures var b := BeforeChoice(s, c, clock);
            && b.slots == s.slots && b.running == s.running && b.idle == s.idle && b.dead == s.dead
            && b.info.Keys == s.info.Keys && b.asleep <= s.asleep
  {
    hide WakeUp;
    assert PairOk(s, c, c);
    SleepersKnown(s);
    var cur := s.running[c];
    hide Inv;
    WakePrefix(SetStatus(s, cur, s.info[cur].status.(running := false)), clock, 0);
  }

  /** The task chosen is ready, or it is the idle task of this processor and nothing is ready. */
  lemma ChosenIsReadyOrIdle(s: State, c: Cpu, clock: nat -> nat)
    requires Inv(s) && c in s.running
    ensures s.running[c] in s.info && c in s.idle && Chosen(s, c, clock) in s.info
    ensures var b, next := BeforeChoice(s, c, clock), Chosen(s, c, clock);
            && (Ready(b, next) || next == s.idle[c])
            && (next == s.idle[c] <==> forall t: nat | t < |s.slots| :: !Ready(b, t))
  {
    assert PairOk(s, c, c);
    assert TaskOk(s, s.running[c]) && TaskOk(s, s.idle[c]) && IsIdle(s, s.idle[c]);
    BeforeShape(s, c, clock);
    var b := BeforeChoice(s, c, clock);
    assert !Ready(b, s.idle[c]);
    assert forall t: nat :: Ready(b, t) ==> t in s.info;
    hide Inv, TaskOk, PairOk, BeforeChoice, Ready;
  }

  /** The chosen task is on no other processor, as a running or as an idle task. */
  lemma ChosenIsFree(s: State, c: Cpu, clock: nat -> nat, d: Cpu)
    requires Inv(s) && c in s.running && d in s.running && d != c
    ensures s.running[c] in s.info
    ensures s.running[d] != Chosen(s, c, clock) && d in s.idle && s.idle[d] != Chosen(s, c, clock)
  {
    assert PairOk(s, c, d) && PairOk(s, d, c) && PairOk(s, d, d);
    ChosenIsReadyOrIdle(s, c, clock);
    BeforeInfo(s, c, clock, s.running[d]);
    BeforeShape(s, c, clock);
    assert RunsSomewhere(s, s.running[d]) && TaskOk(s, s.running[d]);
    assert IsIdle(s, s.idle[d]) && TaskOk(s, s.idle[d]);
    hide Inv, PairOk, Chosen, BeforeChoice, RunsSomewhere, IsIdle;
  }

  lemma SwitchShape(s: State, c: Cpu, clock: nat -> nat)
    requires Inv(s) && c in s.running
    ensures s.running[c] in s.info
    ensures var n, b, next := Switch(s, c, clock), BeforeChoice(s, c, clock), Chosen(s, c, clock);
            && next in s.info && next in b.info
            && n == SetStatus(b, next, b.info[next].status.(running := true)).(running := s.running[c := next])
  {
    ChosenIsReadyOrIdle(s, c, clock);
    BeforeShape(s, c, clock);
    hide WakeUp, Inv, BeforeChoice;
  }

  lemma SwitchTask(s: State, c: Cpu, clock: nat -> nat, t: Tid)
    requires Inv(s) && c in s.running && t in s.info
    ensures s.running[c] in s.info
    ensures TaskOk(Switch(s, c, clock), t)
    ensures Switch(s, c, clock).info[t].wake == s.info[t].wake
  {
    SwitchShape(s, c, clock);
    BeforeInfo(s, c, clock, t);
    BeforeShape(s, c, clock);
    var n, next := Switch(s, c, clock), Chosen(s, c, clock);
    assert TaskOk(s, t);
    assert PairOk(s, c, c);
    RunsAfter(s, n, c, next, t);
    assert IsIdle(n, t) <==> IsIdle(s, t);
    hide Switch, BeforeChoice, Chosen, Inv, RunsSomewhere, IsIdle, PairOk;
  }

  lemma RunsAfter(s: State, n: State, c: Cpu, next: Tid, t: Tid)
    requires Inv(s) && c in s.running && n.running == s.running[c := next]
    ensures RunsSomewhere(n, t) <==> t == next || (t != s.running[c] && RunsSomewhere(s, t))
  {
    assert n.running[c] == next;
    if RunsSomewhere(s, t) && t != s.running[c] {
      var d :| d in s.running && s.running[d] == t;
      assert n.running[d] == t;
    }
    if RunsSomewhere(n, t) && t != next {
      var d :| d in n.running && n.running[d] == t;
      assert d != c && s.running[d] == t && PairOk(s, c, d);
    }
  }

  lemma SwitchPair(s: State, c: Cpu, clock: nat -> nat, d: Cpu, e: Cpu)
    requires Inv(s) && c in s.running && d in s.running && e in s.running
    ensures s.running[c] in s.info
    ensures PairOk(Switch(s, c, clock), d, e)
  {
    SwitchShape(s, c, clock);
    BeforeShape(s, c, clock);
    assert PairOk(s, d, e);
    if d != c {
      ChosenIsFree(s, c, clock, d);
    }
    if e != c {
      ChosenIsFree(s, c, clock, e);
    }
    hide Switch, BeforeChoice, Chosen, Inv;
  }

  /** The parts of the invariant about the queues, when some sleepers leave from the back. */
  lemma QueuesAfter(s: State, n: State)
    requires Inv(s) && n.slots == s.slots && n.dead == s.dead && n.info.Keys == s.info.Keys && n.asleep <= s.asleep
    requires forall t <- s.info :: n.info[t].wake == s.info[t].wake
    ensures Queues(n)
    ensures forall t {:trigger Exists(n, t)} :: Exists(n, t)
  {
    assert forall i :: 0 <= i < |n.asleep| ==> n.asleep[i] == s.asleep[i];
    forall t
      ensures Exists(n, t)
    {
      assert Exists(s, t);
    }
  }

  /** Each context switch keeps the invariant. */
  lemma SwitchKeepsInv(s: State, c: Cpu, clock: nat -> nat)
    requires Inv(s) && c in s.running
    ensures s.running[c] in s.info
    ensures Inv(Switch(s, c, clock))
  {
    hide Switch, BeforeChoice, Chosen, PairOk, TaskOk, Exists, Queues;
    SwitchShape(s, c, clock);
    BeforeShape(s, c, clock);
    var n := Switch(s, c, clock);
    forall d, e | d in s.running && e in s.running
      ensures PairOk(n, d, e)
    {
      SwitchPair(s, c, clock, d, e);
    }
    forall t <- s.info
      ensures TaskOk(n, t) && n.info[t].wake == s.info[t].wake
    {
      SwitchTask(s, c, clock, t);
    }
    QueuesAfter(s, n);
  }

  /** A context switch wakes every task whose time is before its first reading of the clock, and only
      tasks whose time some reading was past. */
  lemma WakesAllAndNoneEarly(s: State, c: Cpu, clock: nat -> nat, t: Tid)
    requires Inv(s) && c in s.running && Clock(clock) && t in s.info && s.info[t].status.asleep
    ensures s.running[c] in s.info && t in Switch(s, c, clock).info
    ensures var n := Switch(s, c, clock);
            && (s.info[t].wake < clock(0) ==> !n.info[t].status.asleep)
            && (!n.info[t].status.asleep ==> s.info[t].wake < clock(|s.asleep|))
  {
    hide WakeUp, RunsSomewhere, IsIdle, Exists, Distinct;
    SwitchShape(s, c, clock);
    BeforeInfo(s, c, clock, t);
    BeforeShape(s, c, clock);
    assert TaskOk(s, t);
    SleepersKnown(s);
    var cur := s.running[c];
    var r := SetStatus(s, cur, s.info[cur].status.(running := false));
    assert Known(r) && Sorted(r);
    WakesDue(r, clock, t);
    hide Switch, Chosen, Inv;
  }

  // ----- The other critical sections keep the invariant -----

  lemma CpusExist(s: State, c: Cpu)
    requires Inv(s) && c in s.running
    ensures c in s.idle && s.running[c] in s.info && s.idle[c] in s.info
    ensures RunsSomewhere(s, s.running[c]) && IsIdle(s, s.idle[c])
  {
    hide Tasks, Queues;
    assert PairOk(s, c, c);
  }

  /** Steps that leave the processors alone. */
  lemma SameCpus(s: State, n: State)
    requires Inv(s) && n.running == s.running && n.idle == s.idle && s.info.Keys <= n.info.Keys
    ensures Cpus(n)
  {
    hide Tasks, Queues;
    forall c, d | c in n.running && d in n.running
      ensures PairOk(n, c, d)
    {
      assert PairOk(s, c, d);
    }
  }

  lemma SameRuns(s: State, n: State, t: Tid)
    requires n.running == s.running && n.idle == s.idle
    ensures RunsSomewhere(n, t) <==> RunsSomewhere(s, t)
    ensures IsIdle(n, t) <==> IsIdle(s, t)
  {
  }

  /** Blocking and unblocking. */
  lemma BlockedBitKeepsInv(s: State, t: Tid, blocked: bool)
    requires Inv(s) && t in s.info
    ensures Inv(SetStatus(s, t, s.info[t].status.(blocked := blocked)))
  {
    hide Cpus, TaskOk, Exists, Distinct, Sorted;
    var n := SetStatus(s, t, s.info[t].status.(blocked := blocked));
    SameCpus(s, n);
    forall u <- n.info
      ensures TaskOk(n, u)
    {
      BlockedTask(s, t, blocked, u);
    }
    QueuesAfter(s, n);
  }

  lemma BlockedTask(s: State, t: Tid, blocked: bool, u: Tid)
    requires Inv(s) && t in s.info && u in s.info
    ensures TaskOk(SetStatus(s, t, s.info[t].status.(blocked := blocked)), u)
  {
    hide Cpus, Queues, RunsSomewhere, IsIdle;
    SameRuns(s, SetStatus(s, t, s.info[t].status.(blocked := blocked)), u);
    assert TaskOk(s, u);
  }

  /** The sleep queue with t put in at its place. */
  lemma Inserted(q: seq<Tid>, t: Tid, at: nat)
    requires Distinct(q) && t !in q && at <= |q|
    ensures Distinct(q[..at] + [t] + q[at..])
    ensures forall u :: u in q[..at] + [t] + q[at..] <==> u == t || u in q
  {
    var p := q[..at] + [t] + q[at..];
    forall u
      ensures u in p <==> u == t || u in q
    {
      if u in q {
        var i :| 0 <= i < |q| && q[i] == u;
        assert u == p[if i < at then i else i + 1];
      }
      assert t == p[at];
    }
  }

  lemma SleepSorted(s: State, n: State, t: Tid, at: nat, wake: nat, i: nat, j: nat)
    requires Sorted(s) && Known(s) && t in s.info && t !in s.asleep && at == SleepAt(s, wake, 0)
    requires n.info == s.info[t := Info(s.info[t].status.(asleep := true), wake)]
    requires n.asleep == s.asleep[..at] + [t] + s.asleep[at..] && i < j < |n.asleep|
    ensures n.asleep[i] in n.info && n.asleep[j] in n.info
    ensures n.info[n.asleep[i]].wake >= n.info[n.asleep[j]].wake
  {
    hide Distinct, SleepAt, Sorted;
    var a := if i < at then i else i - 1;
    var b := if j < at then j else j - 1;
    InsertedAt(s.asleep, t, at, i);
    InsertedAt(s.asleep, t, at, j);
    if i == at {
      SleepersAfter(s, wake, b);
    } else if j == at {
      SleepersBefore(s, wake, a);
    } else {
      InOrder(s, a, b);
    }
  }

  lemma InsertedAt(q: seq<Tid>, t: Tid, at: nat, i: nat)
    requires at <= |q| && i <= |q|
    ensures (q[..at] + [t] + q[at..])[i] == if i < at then q[i] else if i == at then t else q[i - 1]
  {
  }

  lemma InOrder(s: State, a: nat, b: nat)
    requires Sorted(s) && Known(s) && a <= b < |s.asleep|
    ensures s.asleep[a] in s.info && s.asleep[b] in s.info
    ensures s.info[s.asleep[a]].wake >= s.info[s.asleep[b]].wake
  {
    hide Distinct;
  }

  /** From the chosen place on, tasks wake no later. */
  lemma SleepersAfter(s: State, wake: nat, b: nat)
    requires Sorted(s) && Known(s) && SleepAt(s, wake, 0) <= b < |s.asleep|
    ensures s.asleep[b] in s.info && s.info[s.asleep[b]].wake <= wake
  {
    hide Distinct, Sorted, SleepAt;
    InOrder(s, SleepAt(s, wake, 0), b);
  }

  /** Before it, they wake later. */
  lemma SleepersBefore(s: State, wake: nat, a: nat)
    requires Known(s) && a < SleepAt(s, wake, 0)
    ensures s.asleep[a] in s.info && s.info[s.asleep[a]].wake > wake
  {
    hide Distinct, SleepAt;
  }

  /** Sleeping keeps the invariant exactly for a task of the table that is not asleep yet: a task that
      was killed while it ran must not sleep any more. */
  lemma SleepKeepsInvExactly(s: State, c: Cpu, wake: nat)
    requires Inv(s) && c in s.running
    ensures s.running[c] in s.info
    ensures Inv(Sleep(s, c, wake)) <==> InTable(s, s.running[c]) && !s.info[s.running[c]].status.asleep
  {
    hide Cpus, Sorted, RunsSomewhere, IsIdle, Exists;
    CpusExist(s, c);
    var n, t := Sleep(s, c, wake), s.running[c];
    assert TaskOk(s, t);
    if InTable(s, t) && !s.info[t].status.asleep {
      SleepKeepsInv(s, c, wake);
    } else if !InTable(s, t) {
      assert !TaskOk(n, t) && t in n.info;
    } else {
      var at := SleepAt(s, wake, 0);
      SleptTwice(s.asleep, t, at);
    }
  }

  lemma SleptTwice(q: seq<Tid>, t: Tid, at: nat)
    requires t in q && at <= |q|
    ensures !Distinct(q[..at] + [t] + q[at..])
  {
    var i :| 0 <= i < |q| && q[i] == t;
    var p := q[..at] + [t] + q[at..];
    assert p[if i < at then i else i + 1] == t && p[at] == t;
  }

  lemma SleepTask(s: State, c: Cpu, wake: nat, u: Tid)
    requires Inv(s) && c in s.running && u in s.info
    requires InTable(s, s.running[c]) && !s.info[s.running[c]].status.asleep
    ensures TaskOk(Sleep(s, c, wake), u)
  {
    hide Cpus, Sorted, RunsSomewhere, IsIdle, SleepAt;
    var t, n := s.running[c], Sleep(s, c, wake);
    SameRuns(s, n, u);
    assert TaskOk(s, u) && TaskOk(s, t);
    Inserted(s.asleep, t, SleepAt(s, wake, 0));
    hide Distinct;
  }

  lemma SleepKeepsInv(s: State, c: Cpu, wake: nat)
    requires Inv(s) && c in s.running && InTable(s, s.running[c]) && !s.info[s.running[c]].status.asleep
    ensures Inv(Sleep(s, c, wake))
  {
    hide Cpus, RunsSomewhere, IsIdle, SleepAt, Distinct;
    SleepersKnown(s);
    var n, t, at := Sleep(s, c, wake), s.running[c], SleepAt(s, wake, 0);
    assert TaskOk(s, t);
    Inserted(s.asleep, t, at);
    SameCpus(s, n);
    forall u <- n.info
      ensures TaskOk(n, u)
    {
      SleepTask(s, c, wake, u);
    }
    forall u
      ensures Exists(n, u)
    {
      assert Exists(s, u);
    }
    forall i: nat, j: nat | i < j < |n.asleep|
      ensures n.info[n.asleep[i]].wake >= n.info[n.asleep[j]].wake
    {
      SleepSorted(s, n, t, at, wake, i, j);
    }
    hide TaskOk, Exists;
  }

  lemma KillTask(s: State, t: Tid, u: Tid)
    requires Inv(s) && InTable(s, t) && !s.info[t].status.asleep && u in s.info
    ensures TaskOk(Kill(s, t), u)
  {
    hide Cpus, Queues, RunsSomewhere, IsIdle;
    SameRuns(s, Kill(s, t), u);
    assert TaskOk(s, u) && TaskOk(s, t);
  }

  /** Killing a task that is not asleep keeps the invariant. */
  lemma KillKeepsInv(s: State, t: Tid)
    requires Inv(s) && (t in s.info ==> !s.info[t].status.asleep)
    ensures Inv(Kill(s, t))
  {
    if InTable(s, t) {
      hide Cpus, RunsSomewhere, IsIdle;
      var n := Kill(s, t);
      SameCpus(s, n);
      forall u <- n.info
        ensures TaskOk(n, u)
      {
        KillTask(s, t, u);
      }
      assert TaskOk(s, t);
      hide TaskOk;
      forall u
        ensures Exists(n, u)
      {
        assert Exists(s, u);
      }
      assert Distinct(n.dead);
      hide Exists, Distinct;
      assert Sorted(n);
    }
  }

  lemma AddTask(s: State, t: Tid, fill: nat -> bool, u: Tid)
    requires Inv(s) && t !in s.info && (u in s.info ==> u < t) && (u in s.info || u == t)
    ensures TaskOk(Add(s, t, fill), u)
  {
    hide Cpus, Queues, Resized;
    SameRuns(s, Add(s, t, fill), u);
    if u != t {
      hide RunsSomewhere, IsIdle;
      assert TaskOk(s, u);
    } else {
      assert Exists(s, t);
      NewIsIdleNowhere(s, t);
      hide RunsSomewhere, IsIdle;
    }
  }

  lemma NewIsIdleNowhere(s: State, t: Tid)
    requires Inv(s) && t !in s.info
    ensures !RunsSomewhere(s, t) && !IsIdle(s, t)
  {
    hide Tasks, Queues;
    forall c | c in s.running
      ensures s.running[c] != t && s.idle[c] != t
    {
      assert PairOk(s, c, c);
    }
  }

  /** Growing the table leaves the queues alone. */
  lemma QueuesSame(s: State, n: State)
    requires Inv(s) && n.asleep == s.asleep && n.dead == s.dead
    requires forall t <- s.info :: t in n.info && n.info[t].wake == s.info[t].wake
    ensures Queues(n)
  {
    hide Cpus, Distinct, RunsSomewhere, IsIdle;
    SleepersKnown(s);
  }

  /** Adding a task keeps the invariant exactly when every task there is has a smaller tid, and the slots
      that are skipped happen to be empty: an add that comes early leaves slots that nobody wrote, and one
      that comes late cuts the later tasks off the table. */
  lemma AddKeepsInvExactly(s: State, t: Tid, fill: nat -> bool)
    requires Inv(s) && t !in s.info
    ensures Inv(Add(s, t, fill)) <==> (forall u <- s.info :: u < t) && forall u: nat | |s.slots| <= u < t :: !fill(u)
  {
    hide Cpus, Queues, RunsSomewhere, IsIdle, Resized;
    var n := Add(s, t, fill);
    NoTaskBeyond(s);
    if u: nat :| |s.slots| <= u < t && fill(u) {
      assert !Exists(n, u);
    } else if forall u <- s.info :: u < t {
      SameCpus(s, n);
      forall u <- n.info
        ensures TaskOk(n, u)
      {
        AddTask(s, t, fill, u);
      }
      hide TaskOk;
      forall u
        ensures Exists(n, u)
      {
        assert Exists(s, u);
      }
      hide Exists;
      QueuesSame(s, n);
    } else {
      var u :| u in s.info && u >= t;
      assert !TaskOk(n, u) && u in n.info;
    }
  }

  lemma StartPair(s: State, c: Cpu, d: Cpu, e: Cpu)
    requires Inv(s) && c !in s.running && |s.slots| !in s.info
    requires (d == c || d in s.running) && (e == c || e in s.running)
    ensures PairOk(Start(s, c), d, e)
  {
    if d != c {
      CpusExist(s, d);
    }
    if e != c {
      CpusExist(s, e);
    }
    hide Tasks, Queues, RunsSomewhere, IsIdle;
    if d != c && e != c {
      assert PairOk(s, d, e);
    }
    hide Inv;
  }

  /** A new processor starts on its own idle task. */
  lemma StartKeepsInv(s: State, c: Cpu)
    requires Inv(s) && c !in s.running
    ensures Inv(Start(s, c))
  {
    hide Queues, PairOk, RunsSomewhere, IsIdle;
    var n, t := Start(s, c), |s.slots|;
    assert t in s.info ==> TaskOk(s, t);
    forall d, e | d in n.running && e in n.running
      ensures PairOk(n, d, e)
    {
      StartPair(s, c, d, e);
    }
    forall u <- n.info
      ensures TaskOk(n, u)
    {
      StartTask(s, c, u);
    }
    hide TaskOk;
    forall u
      ensures Exists(n, u)
    {
      assert Exists(s, u);
    }
    hide Exists;
    QueuesSame(s, n);
  }

  lemma StartRuns(s: State, c: Cpu, u: Tid)
    requires Inv(s) && c !in s.running
    ensures RunsSomewhere(Start(s, c), u) <==> u == |s.slots| || RunsSomewhere(s, u)
    ensures IsIdle(Start(s, c), u) <==> u == |s.slots| || IsIdle(s, u)
  {
    hide Tasks, Queues, PairOk;
    var n := Start(s, c);
    assert n.running[c] == |s.slots| && n.idle[c] == |s.slots|;
    if RunsSomewhere(s, u) {
      var d :| d in s.running && s.running[d] == u;
      assert n.running[d] == u;
    }
    if IsIdle(s, u) {
      var d :| d in s.idle && s.idle[d] == u;
      assert n.idle[d] == u;
    }
  }

  lemma StartTask(s: State, c: Cpu, u: Tid)
    requires Inv(s) && c !in s.running && |s.slots| !in s.info && (u in s.info || u == |s.slots|)
    ensures TaskOk(Start(s, c), u)
  {
    StartRuns(s, c, u);
    hide Cpus, Queues, RunsSomewhere, IsIdle;
    if u == |s.slots| {
      assert Exists(s, u);
    } else {
      assert TaskOk(s, u);
    }
  }

  lemma ReapTask(s: State, t: Tid)
    requires Inv(s) && t in Reap(s).info
    ensures TaskOk(Reap(s), t)
  {
    hide Cpus, Queues, RunsSomewhere, IsIdle;
    SameRuns(s, Reap(s), t);
    assert TaskOk(s, t);
  }

  lemma ReapPair(s: State, c: Cpu, d: Cpu)
    requires Inv(s) && c in s.running && d in s.running && forall t <- s.dead :: !RunsSomewhere(s, t)
    ensures PairOk(Reap(s), c, d)
  {
    CpusExist(s, c);
    CpusExist(s, d);
    assert PairOk(s, c, d);
    assert TaskOk(s, s.idle[c]);
    hide Inv, RunsSomewhere, IsIdle;
  }

  /** Freeing the dead keeps the invariant exactly when no processor still runs one of them. */
  lemma ReapKeepsInvExactly(s: State)
    requires Inv(s)
    ensures Inv(Reap(s)) <==> forall t <- s.dead :: !RunsSomewhere(s, t)
  {
    hide IsIdle;
    var n := Reap(s);
    if t :| t in s.dead && RunsSomewhere(s, t) {
      hide Tasks, Queues;
      var c :| c in s.running && s.running[c] == t;
      assert !PairOk(n, c, c);
    } else {
      hide RunsSomewhere;
      forall c, d | c in s.running && d in s.running
        ensures PairOk(n, c, d)
      {
        ReapPair(s, c, d);
      }
      hide PairOk;
      forall t <- n.info
        ensures TaskOk(n, t)
      {
        ReapTask(s, t);
      }
      forall t
        ensures Exists(n, t)
      {
        ReapExists(s, t);
      }
      hide TaskOk, Exists, Distinct;
      assert Sorted(n);
    }
  }

  lemma ReapExists(s: State, t: Tid)
    requires Inv(s)
    ensures Exists(Reap(s), t)
  {
    hide Cpus, Queues, RunsSomewhere, IsIdle;
    assert Exists(s, t);
    assert t in s.info ==> TaskOk(s, t);
  }

  // ----- Runs -----

  datatype Step =
    | DoSwitch(c: Cpu, clock: nat -> nat)
    | DoSleep(c: Cpu, wake: nat)
    | DoKill(t: Tid)
    | DoBlock(t: Tid)
    | DoUnblock(t: Tid)
    | DoAdd(t: Tid, fill: nat -> bool)
    | DoStart(c: Cpu)
    | DoReap

  /** A running task of the table sleeps; a task that is killed is not asleep; a new task has a larger tid
      than all there are, and the slots it skips happen to be empty; a processor starts once; the dead are
      freed when no processor runs them. */
  ghost predicate Enabled(s: State, step: Step) {
    match step
    case DoSwitch(c, clock) => c in s.running && s.running[c] in s.info && Clock(clock)
    case DoSleep(c, _) => c in s.running && InTable(s, s.running[c]) && !s.info[s.running[c]].status.asleep
    case DoKill(t) => t in s.info ==> !s.info[t].status.asleep
    case DoBlock(_) => true
    case DoUnblock(_) => true
    case DoAdd(t, fill) => (forall u <- s.info :: u < t) && forall u: nat | |s.slots| <= u < t :: !fill(u)
    case DoStart(c) => c !in s.running
    case DoReap => forall t <- s.dead :: !RunsSomewhere(s, t)
  }

  ghost function Next(s: State, step: Step): State
    requires Enabled(s, step)
  {
    match step
    case DoSwitch(c, clock) => Switch(s, c, clock)
    case DoSleep(c, wake) => Sleep(s, c, wake)
    case DoKill(t) => Kill(s, t)
    case DoBlock(t) => Block(s, t)
    case DoUnblock(t) => Unblock(s, t)
    case DoAdd(t, fill) => Add(s, t, fill)
    case DoStart(c) => Start(s, c)
    case DoReap => Reap(s)
  }

  lemma StepKeepsInv(s: State, step: Step)
    requires Inv(s) && Enabled(s, step)
    ensures Inv(Next(s, step))
  {
    hide Inv, Switch, Sleep, Kill, Add, Start, Reap;
    match step
    case DoSwitch(c, clock) => SwitchKeepsInv(s, c, clock);
    case DoSleep(c, wake) => SleepKeepsInv(s, c, wake);
    case DoKill(t) => KillKeepsInv(s, t);
    case DoBlock(t) => if InTable(s, t) { BlockedBitKeepsInv(s, t, true); }
    case DoUnblock(t) => if InTable(s, t) { BlockedBitKeepsInv(s, t, false); }
    case DoAdd(t, fill) => AddKeepsInvExactly(s, t, fill);
    case DoStart(c) => StartKeepsInv(s, c);
    case DoReap => ReapKeepsInvExactly(s);
  }

  lemma NoTaskBeyond(s: State)
    requires Inv(s)
    ensures forall u <- s.info :: u < |s.slots|
  {
    hide Cpus, Queues, Exists;
    forall u <- s.info
      ensures u < |s.slots|
    {
      assert TaskOk(s, u);
    }
  }

  const BOOT := State(map[], [], map[], map[], [], [])

  /** run[i] is the state after i steps. */
  ghost predicate IsRun(run: seq<State>, steps: seq<Step>) {
    && |run| == |steps| + 1
    && forall i :: 0 <= i < |steps| ==> Follows(run[i], steps[i], run[i + 1])
  }

  ghost predicate Follows(s: State, step: Step, n: State) {
    Enabled(s, step) && n == Next(s, step)
  }

  /** Where the step is enabled, it leads from s to n. */
  ghost predicate IsStep(s: State, step: Step, n: State) {
    Enabled(s, step) ==> Follows(s, step, n)
  }

  /** A state that some run from boot ends in. */
  ghost predicate Reachable(s: State) {
    exists run, steps :: IsRun(run, steps) && run[0] == BOOT && run[|steps|] == s
  }

  lemma BootReachable()
    ensures Reachable(BOOT)
  {
    assert IsRun([BOOT], []);
  }

  lemma NextReachable(s: State, step: Step)
    requires Reachable(s) && Enabled(s, step)
    ensures Reachable(Next(s, step)) && Inv(Next(s, step))
  {
    hide Enabled, Next, Inv;
    var run, steps :| IsRun(run, steps) && run[0] == BOOT && run[|steps|] == s;
    var longer, more := run + [Next(s, step)], steps + [step];
    forall i | 0 <= i < |more|
      ensures Follows(longer[i], more[i], longer[i + 1])
    {
      if i < |steps| {
        assert Follows(run[i], steps[i], run[i + 1]);
      }
    }
    assert IsRun(longer, more);
    BootInv();
    RunKeepsInv(longer, more, |more|);
  }

  /** The invariant holds in every state of every run. */
  lemma {:induction false} RunKeepsInv(run: seq<State>, steps: seq<Step>, i: nat)
    requires IsRun(run, steps) && Inv(run[0]) && i < |run|
    ensures Inv(run[i])
  {
    hide Inv, Next, Enabled;
    if i > 0 {
      RunKeepsInv(run, steps, i - 1);
      assert Follows(run[i - 1], steps[i - 1], run[i]);
      StepKeepsInv(run[i - 1], steps[i - 1]);
    }
  }

  /** From boot, in every state of every run: no task runs on two processors, an idle task runs only on
      its own, and a task of the table is marked as running exactly when some processor runs it. */
  lemma RunningIsExact(run: seq<State>, steps: seq<Step>, i: nat, c: Cpu, d: Cpu, t: Tid)
    requires IsRun(run, steps) && run[0] == BOOT && i < |run|
    requires c in run[i].running && d in run[i].running
    ensures run[i].running[c] == run[i].running[d] ==> c == d
    ensures c in run[i].idle && (run[i].idle[c] == run[i].running[d] ==> c == d)
    ensures InTable(run[i], t) ==> (run[i].info[t].status.running <==> RunsSomewhere(run[i], t))
  {
    BootInv();
    RunKeepsInv(run, steps, i);
    hide IsRun, Queues, RunsSomewhere, IsIdle, Exists;
    assert PairOk(run[i], c, d);
    assert t in run[i].info ==> TaskOk(run[i], t);
  }

  lemma BootInv()
    ensures Inv(BOOT)
  {
  }

  /** From boot, in every state of every run: the sleep queue is sorted, has no task twice, and holds
      exactly the sleeping tasks; the dead queue holds exactly the dead ones. */
  lemma QueuesAreExact(run: seq<State>, steps: seq<Step>, i: nat, t: Tid)
    requires IsRun(run, steps) && run[0] == BOOT && i < |run|
    ensures Distinct(run[i].asleep) && Sorted(run[i]) && Distinct(run[i].dead)
    ensures t in run[i].asleep <==> t in run[i].info && run[i].info[t].status.asleep
    ensures t in run[i].dead <==> t in run[i].info && run[i].info[t].status.dead
  {
    BootInv();
    RunKeepsInv(run, steps, i);
    hide IsRun, Cpus, RunsSomewhere, IsIdle, Distinct, Sorted;
    assert Exists(run[i], t);
    assert t in run[i].info ==> TaskOk(run[i], t);
  }

  /** A task that is asleep stays so, with the same time, through every step whose clock readings are not
      past its time. */
  lemma StepStaysAsleep(s: State, step: Step, t: Tid)
    requires Inv(s) && Enabled(s, step) && t in s.info && s.info[t].status.asleep
    requires step.DoSwitch? ==> forall k :: step.clock(k) <= s.info[t].wake
    ensures t in Next(s, step).info && Next(s, step).info[t].status.asleep
    ensures Next(s, step).info[t].wake == s.info[t].wake
  {
    hide RunsSomewhere, IsIdle, Exists, Distinct, Sorted, Cpus, Switch;
    assert TaskOk(s, t);
    if step.DoSwitch? {
      WakesAllAndNoneEarly(s, step.c, step.clock, t);
      SwitchTask(s, step.c, step.clock, t);
    }
    hide Inv, TaskOk;
  }

  lemma {:induction false} StaysAsleep(run: seq<State>, steps: seq<Step>, t: Tid, i: nat)
    requires IsRun(run, steps) && Inv(run[0]) && i < |run|
    requires t in run[0].info && run[0].info[t].status.asleep
    requires forall j, k :: 0 <= j < i && steps[j].DoSwitch? ==> steps[j].clock(k) <= run[0].info[t].wake
    ensures t in run[i].info && run[i].info[t].status.asleep && run[i].info[t].wake == run[0].info[t].wake
  {
    hide Inv, Next, Enabled;
    if i > 0 {
      StaysAsleep(run, steps, t, i - 1);
      RunKeepsInv(run, steps, i - 1);
      assert Follows(run[i - 1], steps[i - 1], run[i]);
      StepStaysAsleep(run[i - 1], steps[i - 1], t);
    }
  }

  // ----- Bounded waiting -----

  /** How many tids lie between cur and t, going upwards and around. */
  function Distance(n: nat, cur: Tid, t: Tid): int {
    if t > cur then t - cur - 1 else t - cur - 1 + n
  }

  /** In the table, neither blocked nor asleep nor dead. */
  predicate Runnable(s: State, t: Tid) {
    && InTable(s, t) && !s.info[t].status.blocked && !s.info[t].status.asleep
  }

  lemma ReadyIffNotRunning(s: State, t: Tid)
    requires Inv(s) && Runnable(s, t)
    ensures Ready(s, t) <==> !RunsSomewhere(s, t)
  {
    hide Cpus, Queues, Exists, RunsSomewhere, IsIdle;
    assert TaskOk(s, t);
  }

  /** A switch that does not pick the waiting task picks one that is closer to it. */
  lemma SwitchComesCloser(s: State, c: Cpu, clock: nat -> nat, t: Tid)
    requires Inv(s) && c in s.running && Ready(s, t)
    ensures s.running[c] in s.info && c in Switch(s, c, clock).running
    ensures var n := Switch(s, c, clock);
            RunsSomewhere(n, t) || Distance(|s.slots|, n.running[c], t) < Distance(|s.slots|, s.running[c], t)
  {
    hide Queues, Exists, IsIdle, WakeUp;
    SwitchShape(s, c, clock);
    BeforeShape(s, c, clock);
    BeforeInfo(s, c, clock, t);
    var n, b, cur := Switch(s, c, clock), BeforeChoice(s, c, clock), s.running[c];
    hide Switch, BeforeChoice;
    assert TaskOk(s, t) && TaskOk(s, cur) && RunsSomewhere(s, cur);
    assert cur != t && cur < |s.slots|;
    NoTaskBeyond(s);
    hide Inv;
    assert Ready(b, t);
    if n.running[c] == t {
      assert RunsSomewhere(n, t);
    }
  }

  /** Steps other than a switch on c leave what c runs. */
  lemma OthersLeaveCpu(s: State, step: Step, c: Cpu)
    requires Inv(s) && Enabled(s, step) && c in s.running && !(step.DoSwitch? && step.c == c)
    ensures c in Next(s, step).running && Next(s, step).running[c] == s.running[c]
  {
    if step.DoSwitch? {
      CpusExist(s, step.c);
      SwitchShape(s, step.c, step.clock);
      BeforeShape(s, step.c, step.clock);
    }
    hide Switch, Inv, BeforeChoice, RunsSomewhere;
  }

  /** Context switches of c among the first i steps. */
  function Switches(steps: seq<Step>, c: Cpu, i: nat): nat
    requires i <= |steps|
  {
    if i == 0 then 0
    else Switches(steps, c, i - 1) + if steps[i - 1].DoSwitch? && steps[i - 1].c == c then 1 else 0
  }

  lemma {:induction false} WaitingMeasure(run: seq<State>, steps: seq<Step>, c: Cpu, t: Tid, i: nat)
    requires IsRun(run, steps) && Inv(run[0]) && c in run[0].running && i < |run|
    requires forall j :: 0 <= j < |run| ==> |run[j].slots| == |run[0].slots| && Ready(run[j], t)
    ensures c in run[i].running
    ensures Switches(steps, c, i) + Distance(|run[0].slots|, run[i].running[c], t)
         <= Distance(|run[0].slots|, run[0].running[c], t)
  {
    hide Inv, Next, Enabled, Ready, RunsSomewhere, Switch;
    if i > 0 {
      WaitingMeasure(run, steps, c, t, i - 1);
      RunKeepsInv(run, steps, i - 1);
      RunKeepsInv(run, steps, i);
      assert Follows(run[i - 1], steps[i - 1], run[i]);
      WaitingStep(run[i - 1], steps[i - 1], c, t);
    }
  }

  lemma WaitingStep(s: State, step: Step, c: Cpu, t: Tid)
    requires Inv(s) && Enabled(s, step) && c in s.running && Ready(s, t) && Ready(Next(s, step), t)
    ensures c in Next(s, step).running
    ensures Distance(|s.slots|, Next(s, step).running[c], t) + (if step.DoSwitch? && step.c == c then 1 else 0)
         <= Distance(|s.slots|, s.running[c], t)
  {
    StepKeepsInv(s, step);
    if step.DoSwitch? && step.c == c {
      SwitchComesCloser(s, c, step.clock, t);
      ReadyIffNotRunning(Next(s, step), t);
    } else {
      OthersLeaveCpu(s, step, c);
    }
    hide Inv, RunsSomewhere, Switch;
  }

  /** Bounded waiting: while the table keeps its length and a task stays runnable, |slots| context
      switches of any one processor are enough for some processor to run it. */
  lemma BoundedWaiting(run: seq<State>, steps: seq<Step>, c: Cpu, t: Tid)
    requires IsRun(run, steps) && Inv(run[0]) && c in run[0].running
    requires forall j :: 0 <= j < |run| ==> |run[j].slots| == |run[0].slots| && Runnable(run[j], t)
    requires Switches(steps, c, |steps|) >= |run[0].slots|
    ensures exists i :: 0 <= i < |run| && RunsSomewhere(run[i], t)
  {
    hide Inv, RunsSomewhere, Follows, Ready, Runnable;
    if forall i :: 0 <= i < |run| ==> !RunsSomewhere(run[i], t) {
      forall j | 0 <= j < |run|
        ensures Ready(run[j], t)
      {
        RunKeepsInv(run, steps, j);
        ReadyIffNotRunning(run[j], t);
      }
      WaitingMeasure(run, steps, c, t, |steps|);
      WaitingBounds(run[0], c, t);
      RunKeepsInv(run, steps, |steps|);
      WaitingBounds(run[|steps|], c, t);
    }
  }

  lemma WaitingBounds(s: State, c: Cpu, t: Tid)
    requires Inv(s) && c in s.running && Ready(s, t)
    ensures 0 <= Distance(|s.slots|, s.running[c], t) < |s.slots|
  {
    hide Queues, Exists, IsIdle;
    CpusExist(s, c);
    NoTaskBeyond(s);
    assert TaskOk(s, t);
  }
}

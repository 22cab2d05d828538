/** The intrusive task queue: the links live in the tasks, so a task can be in one queue only. */
module TaskQueue {

  /** The status bits; TASK_READY is no bit at all. */
  datatype Status = Status(running: bool, blocked: bool, asleep: bool, dead: bool)

  const READY := Status(false, false, false, false)

  class Task {
    const tid: nat
    var status: Status
    var wakeuptime: nat
    var next: Task?
    var prev: Task?

    constructor (tid: nat)
      ensures this.tid == tid && status == READY && wakeuptime == 0
    {
      this.tid := tid;
      status, wakeuptime, next, prev := READY, 0, null, null;
    }
  }

  ghost predicate NoDup(s: seq<Task>) {
    forall i, j :: 0 <= i < j < |s| ==> s[i] != s[j]
  }

  lemma Spliced(s: seq<Task>, t: Task, at: int)
    requires NoDup(s) && t !in s && 0 <= at <= |s|
    ensures var q := s[..at] + [t] + s[at..];
            && |q| == |s| + 1 && NoDup(q)
            && (forall i {:trigger q[i]} :: 0 <= i < |q| ==>
                  q[i] == if i < at then s[i] else if i == at then t else s[i - 1])
    ensures forall i :: 0 <= i < |s| && i != at - 1 && at > 0 ==> s[i] != s[at - 1]
    ensures forall i :: 0 <= i < |s| && i != at && at < |s| ==> s[i] != s[at]
  {
  }

  lemma Cut(s: seq<Task>, at: nat)
    requires at < |s|
    ensures var q := s[..at] + s[at + 1..];
            && |q| == |s| - 1
            && (forall i {:trigger q[i]} :: 0 <= i < |q| ==>
                  q[i] == if i < at then s[i] else s[i + 1])
            && (NoDup(s) ==> NoDup(q) && forall i :: 0 <= i < |s| && i != at ==> s[i] != s[at])
  {
  }

  ghost function Only(t: Task?): set<Task> {
    if t == null then {} else {t}
  }

  class Queue {
    var front: Task?
    var back: Task?

    /** The links of the tasks in s chain them in this order, from front to back. */
    ghost predicate Holds(s: seq<Task>)
      reads this, (set x | x in s)`prev, (set x | x in s)`next
    {
      && NoDup(s)
      && front == (if s == [] then null else s[0])
      && back == (if s == [] then null else s[|s| - 1])
      && (forall i {:trigger s[i].prev} :: 0 <= i < |s| ==> s[i].prev == (if i == 0 then null else s[i - 1]))
      && (forall i {:trigger s[i].next} :: 0 <= i < |s| ==> s[i].next == (if i + 1 == |s| then null else s[i + 1]))
    }

    constructor ()
      ensures Holds([])
    {
      front, back := null, null;
    }

    method PushFront(t: Task, ghost s: seq<Task>)
      requires Holds(s) && t !in s
      modifies this, (set x | x in s)`prev, t`prev, t`next
      ensures Holds([t] + s)
      ensures front == t && t.prev == null && t.next == old(front)
    {
      t.prev := null;
      t.next := front;
      if front != null {
        front.prev := t;
      } else {
        back := t;
      }
      front := t;
    }

    /** tq_insert_after; `at` is where a stands in s, or -1 for a null a. */
    method InsertAfter(a: Task?, t: Task, ghost s: seq<Task>, ghost at: int)
      requires Holds(s) && t !in s
      requires if a == null then at == -1 else 0 <= at < |s| && s[at] == a
      modifies this, (set x | x in s)`prev, (set x | x in s)`next, t`prev, t`next
      ensures Holds(s[..at + 1] + [t] + s[at + 1..])
    {
      Spliced(s, t, at + 1);
      hide NoDup;
      t.prev := null;
      t.next := null;
      if a == null {
        assert s[..0] + [t] + s[0..] == [t] + s;
        PushFront(t, s);
      } else if a == back {
        assert at == |s| - 1;
        a.next := t;
        t.prev := a;
        back := t;
      } else {
        var b := a.next;
        assert b == s[at + 1];
        b.prev := t;
        a.next := t;
        t.prev := a;
        t.next := b;
      }
    }

    /** tq_remove: takes t out of the queue, except that a queue whose only task is t stays as it is. It
        trusts the links of t: a task without a predecessor makes its successor the front. */
    method Remove(t: Task, ghost s: seq<Task>, ghost at: nat)
      modifies this, t`prev, t`next, Only(t.prev)`next, Only(t.next)`prev
      ensures old(Holds(s)) && at < |s| && s[at] == t ==> Holds(if |s| == 1 then s else s[..at] + s[at + 1..])
      ensures old(t.prev) == null ==> front == if old(t.next) == null then old(front) else old(t.next)
      ensures old(t.prev) == null ==> back == old(back)
      ensures t.prev == null && t.next == null
    {
      if at < |s| { Cut(s, at); }
      hide NoDup;
      var before, after := t.prev, t.next;
      if before != null && after != null {
        before.next := after;
        after.prev := before;
      } else if before != null {
        before.next := null;
        back := before;
      } else if after != null {
        after.prev := null;
        front := after;
      }
      t.next := null;
      t.prev := null;
    }

    method PopBack(ghost s: seq<Task>) returns (t: Task?)
      requires Holds(s)
      modifies this, (set x | x in s)`next
      ensures if s == [] then t == null && Holds([]) else t == s[|s| - 1] && Holds(s[..|s| - 1])
    {
      if back == null {
        return null;
      }
      t := back;
      back := t.prev;
      if back == null {
        front := null;
      } else {
        back.next := null;
      }
    }

    method Find(tid: nat, ghost s: seq<Task>) returns (t: Task?)
      requires Holds(s)
      ensures t == null ==> forall x <- s :: x.tid != tid
      ensures t != null ==> t in s && t.tid == tid
    {
      t := front;
      ghost var i := 0;
      while t != null
        invariant 0 <= i <= |s| && t == (if i == |s| then null else s[i])
        invariant forall j :: 0 <= j < i ==> s[j].tid != tid
        decreases |s| - i
      {
        if t.tid == tid {
          return;
        }
        t := t.next;
        i := i + 1;
      }
    }
  }

  /** A queue holds at most one sequence of tasks. */
  lemma {:induction false} HoldsUnique(q: Queue, s: seq<Task>, r: seq<Task>, n: nat)
    requires q.Holds(s) && q.Holds(r) && n <= |s|
    ensures n <= |r| && s[..n] == r[..n]
    ensures n == |s| ==> r == s
  {
    if n > 0 {
      HoldsUnique(q, s, r, n - 1);
      if n > 1 {
        assert s[n - 2] == s[..n - 1][n - 2] == r[n - 2];
        assert s[n - 2].next == s[n - 1];
        assert r[n - 2].next == s[n - 1];
      }
      assert s[n - 1] == r[n - 1];
    }
    if n == |s| {
      LastLink(q, r, n);
      LastLink(q, s, n);
    }
  }

  /** The n-th task of a queue has no successor exactly when the queue has n tasks. */
  lemma LastLink(q: Queue, s: seq<Task>, n: nat)
    requires q.Holds(s) && n <= |s|
    ensures n > 0 ==> (s[n - 1].next == null <==> n == |s|)
    ensures n == 0 ==> (q.front == null <==> n == |s|)
  {
  }

  lemma LinksBefore(q: Queue, s: seq<Task>, at: nat)
    requires q.Holds(s) && at <= |s|
    ensures q.front == if s == [] then null else s[0]
    ensures at < |s| ==> forall i {:trigger s[i].next} :: 0 <= i < at ==> s[i].next == s[i + 1] && s[i] != s[at]
  {
  }

  /** Whatever a queue holds goes through the tasks its front leads to. */
  lemma {:induction false} FrontLeadsTo(q: Queue, s: seq<Task>, r: seq<Task>, n: nat)
    requires q.Holds(r) && n < |s| && q.front == s[0]
    requires forall i {:trigger s[i].next} :: 0 <= i < n ==> s[i].next == s[i + 1]
    ensures n < |r| && r[n] == s[n]
  {
    if n > 0 {
      FrontLeadsTo(q, s, r, n - 1);
      assert s[n - 1].next == s[n];
      assert r[n - 1].next == s[n];
    }
  }
}

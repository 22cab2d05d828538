/** The reader/writer lock, as the interleavings of any number of threads. Each step is one memory
    operation: an increment is a load followed by a store, a spin on a held lock changes nothing. */
module RwLock {
  import opened Common

  type Thread = nat

  /** Where a thread is: in rwlock_try_read (R...), rwlock_end_read (E...), rwlock_try_write and
      rwlock_end_write (W...), or holding the lock, or none of these. */
  datatype Pc =
    | Outside
    | RWait | RLoad | RStore(seen: int) | RCheck | RTake | RUndoLoad | RUndoStore(seen: int) | RFail | ROk
    | Reading
    | EWait | ELoad | EStore(seen: int) | ECheck | EFree | EDone
    | WTry | Writing | WEnd

  datatype State = State(readers: int, nrlock: bool, wlock: bool, pc: map<Thread, Pc>)

  /** What a thread outside the lock tries next. */
  datatype Choice = Read | Write

  ghost predicate Initial(s: State) {
    s.readers == 0 && !s.nrlock && !s.wlock && forall t <- s.pc :: s.pc[t] == Outside
  }

  /** What one thread sees: the lock and its own program point. */
  datatype Cell = Cell(readers: int, nrlock: bool, wlock: bool, at: Pc)

  /** One memory operation. */
  function Move(x: Cell, c: Choice): Cell {
    match x.at
    case Outside => x.(at := if c.Read? then RWait else WTry)
    // rwlock_try_read
    case RWait => if x.nrlock then x else x.(at := RLoad, nrlock := true)
    case RLoad => x.(at := RStore(x.readers))
    case RStore(seen) => x.(at := RCheck, readers := seen + 1)
    case RCheck => x.(at := if x.readers == 1 then RTake else ROk)
    case RTake => if x.wlock then x.(at := RUndoLoad) else x.(at := ROk, wlock := true)
    case RUndoLoad => x.(at := RUndoStore(x.readers))
    case RUndoStore(seen) => x.(at := RFail, readers := seen - 1)
    case RFail => x.(at := Outside, nrlock := false)
    case ROk => x.(at := Reading, nrlock := false)
    // rwlock_end_read
    case Reading => x.(at := EWait)
    case EWait => if x.nrlock then x else x.(at := ELoad, nrlock := true)
    case ELoad => x.(at := EStore(x.readers))
    case EStore(seen) => x.(at := ECheck, readers := seen - 1)
    case ECheck => x.(at := if x.readers == 0 then EFree else EDone)
    case EFree => x.(at := EDone, wlock := false)
    case EDone => x.(at := Outside, nrlock := false)
    // rwlock_try_write, rwlock_end_write
    case WTry => if x.wlock then x.(at := Outside) else x.(at := Writing, wlock := true)
    case Writing => x.(at := WEnd)
    case WEnd => x.(at := Outside, wlock := false)
  }

  function See(s: State, t: Thread): Cell
    requires t in s.pc
  {
    Cell(s.readers, s.nrlock, s.wlock, s.pc[t])
  }

  /** One step of thread t. */
  function Step(s: State, t: Thread, c: Choice): (n: State)
    requires t in s.pc
    ensures n.pc.Keys == s.pc.Keys
  {
    var x := Move(See(s, t), c);
    State(x.readers, x.nrlock, x.wlock, s.pc[t := x.at])
  }

  /** A schedule picks the thread to run, and what it wants, at every step. */
  type Schedule = seq<(Thread, Choice)>

  ghost predicate Schedules(s: State, schedule: Schedule) {
    forall i: nat | i < |schedule| :: schedule[i].0 in s.pc
  }

  ghost function Run(s: State, schedule: Schedule): (n: State)
    requires Schedules(s, schedule)
    ensures n.pc.Keys == s.pc.Keys
  {
    if schedule == [] then s
    else
      var last := |schedule| - 1;
      Step(Run(s, schedule[..last]), schedule[last].0, schedule[last].1)
  }

  // ----- The invariant -----

  /** Between the store of the increment and the store of the decrement. */
  predicate Counted(p: Pc) {
    p.RCheck? || p.RTake? || p.RUndoLoad? || p.RUndoStore? || p.ROk? || p.Reading? || p.EWait? || p.ELoad? || p.EStore?
  }

  /** Inside the section protected by nrlock. */
  predicate HoldsCounter(p: Pc) {
    !(p.Outside? || p.RWait? || p.Reading? || p.EWait? || p.WTry? || p.Writing? || p.WEnd?)
  }

  predicate Writer(p: Pc) { p.Writing? || p.WEnd? }

  /** One of the readers on whose behalf wlock is held. */
  predicate Admitted(p: Pc) {
    p.ROk? || p.Reading? || p.EWait? || p.ELoad? || p.EStore? || p.ECheck? || p.EFree?
  }

  ghost function CountedSet(s: State): set<Thread> {
    set t | t in s.pc && Counted(s.pc[t])
  }

  ghost function AdmittedSet(s: State): set<Thread> {
    set t | t in s.pc && Admitted(s.pc[t])
  }

  /** The thread inside the counter section, and the thread that holds the lock for writing. */
  datatype Owners = Owners(counter: Option<Thread>, writer: Option<Thread>)

  ghost predicate InvAt(s: State, o: Owners) {
    && s.readers == |CountedSet(s)|
    && (s.nrlock <==> o.counter.Some?)
    && (s.wlock <==> o.writer.Some? || AdmittedSet(s) != {})
    && (o.writer.Some? ==> AdmittedSet(s) == {})
    && (o.counter.Some? ==> o.counter.value in s.pc)
    && (o.writer.Some? ==> o.writer.value in s.pc)
    && forall t <- s.pc ::
         && (HoldsCounter(s.pc[t]) <==> o.counter == Some(t))
         && (Writer(s.pc[t]) <==> o.writer == Some(t))
         && Local(s.readers, s.pc[t])
  }

  /** What a thread knows at its program point. */
  predicate Local(readers: int, p: Pc) {
    && ((p.RStore? || p.RUndoStore? || p.EStore?) ==> p.seen == readers)
    && ((p.RTake? || p.RUndoLoad? || p.RUndoStore?) ==> readers == 1)
    && ((p.RFail? || p.EFree?) ==> readers == 0)
  }

  ghost predicate Inv(s: State) {
    exists o: Owners :: InvAt(s, o)
  }

  /** The owners after thread t has moved to p. */
  function Moved(o: Owners, t: Thread, p: Pc): Owners {
    Owners(
      if HoldsCounter(p) then Some(t) else if o.counter == Some(t) then None else o.counter,
      if Writer(p) then Some(t) else if o.writer == Some(t) then None else o.writer)
  }

  /** How the two sets change when one thread moves. */
  lemma SetsStep(s: State, n: State, t: Thread)
    requires t in s.pc && t in n.pc && n.pc == s.pc[t := n.pc[t]]
    ensures CountedSet(n) == CountedSet(s) - {t} + (if Counted(n.pc[t]) then {t} else {})
    ensures AdmittedSet(n) == AdmittedSet(s) - {t} + (if Admitted(n.pc[t]) then {t} else {})
    ensures t in CountedSet(s) <==> Counted(s.pc[t])
    ensures t in AdmittedSet(s) <==> Admitted(s.pc[t])
  {
  }

  lemma Sizes(a: set<Thread>, t: Thread)
    ensures |a - {t}| == if t in a then |a| - 1 else |a|
    ensures |a - {t} + {t}| == |a - {t}| + 1
    ensures |a - {t} + {}| == |a - {t}|
  {
    if t in a {
      assert a == a - {t} + {t};
    } else {
      assert a == a - {t};
    }
    assert a - {t} + {} == a - {t};
  }

  /** The other counted threads are exactly the other admitted ones, while t has the counter. */
  lemma OthersAreReaders(s: State, o: Owners, t: Thread)
    requires InvAt(s, o) && o.counter == Some(t)
    ensures CountedSet(s) - {t} == AdmittedSet(s) - {t}
  {
    forall u <- s.pc | u != t
      ensures Counted(s.pc[u]) <==> Admitted(s.pc[u])
    {
      assert !HoldsCounter(s.pc[u]);
    }
  }

  lemma ThreadFacts(s: State, o: Owners, t: Thread)
    requires InvAt(s, o) && t in s.pc
    ensures HoldsCounter(s.pc[t]) <==> o.counter == Some(t)
    ensures Writer(s.pc[t]) <==> o.writer == Some(t)
    ensures Local(s.readers, s.pc[t])
    ensures s.nrlock <==> o.counter.Some?
    ensures s.wlock <==> o.writer.Some? || AdmittedSet(s) != {}
    ensures o.writer.Some? ==> AdmittedSet(s) == {}
    ensures s.readers == |CountedSet(s)|
  {
  }

  /** What a step must establish about the lock words and the moving thread; the other threads are
      taken care of here. */
  lemma Reestablish(s: State, o: Owners, n: State, t: Thread)
    requires InvAt(s, o) && t in s.pc && t in n.pc && n.pc == s.pc[t := n.pc[t]]
    requires HoldsCounter(n.pc[t]) ==> o.counter == None || o.counter == Some(t)
    requires Writer(n.pc[t]) ==> o.writer == None || o.writer == Some(t)
    requires n.readers != s.readers ==> o.counter == Some(t)
    requires n.readers == |CountedSet(n)| && Local(n.readers, n.pc[t])
    requires n.nrlock <==> Moved(o, t, n.pc[t]).counter.Some?
    requires n.wlock <==> Moved(o, t, n.pc[t]).writer.Some? || AdmittedSet(n) != {}
    requires Moved(o, t, n.pc[t]).writer.Some? ==> AdmittedSet(n) == {}
    ensures InvAt(n, Moved(o, t, n.pc[t]))
  {
    hide CountedSet, AdmittedSet;
    forall u <- n.pc | u != t
      ensures Local(n.readers, n.pc[u])
    {
      assert n.pc[u] == s.pc[u];
      assert o.counter == Some(t) ==> !HoldsCounter(s.pc[u]);
    }
  }

  function One(b: bool): nat { if b then 1 else 0 }

  lemma CountedSummary(s: State, n: State, t: Thread) returns (others: nat)
    requires t in s.pc && t in n.pc && n.pc == s.pc[t := n.pc[t]]
    ensures others == |CountedSet(s) - {t}|
    ensures |CountedSet(s)| == others + One(Counted(s.pc[t]))
    ensures |CountedSet(n)| == others + One(Counted(n.pc[t]))
  {
    hide Counted, Admitted, CountedSet, AdmittedSet;
    SetsStep(s, n, t);
    Sizes(CountedSet(s), t);
    others := |CountedSet(s) - {t}|;
  }

  lemma AdmittedSummary(s: State, n: State, t: Thread) returns (admitted: bool)
    requires t in s.pc && t in n.pc && n.pc == s.pc[t := n.pc[t]]
    ensures admitted <==> AdmittedSet(s) - {t} != {}
    ensures AdmittedSet(s) != {} <==> admitted || Admitted(s.pc[t])
    ensures AdmittedSet(n) != {} <==> admitted || Admitted(n.pc[t])
  {
    hide Counted, Admitted, CountedSet, AdmittedSet;
    SetsStep(s, n, t);
    var rest := AdmittedSet(s) - {t};
    admitted := rest != {};
    assert AdmittedSet(s) == if t in AdmittedSet(s) then rest + {t} else rest;
    assert AdmittedSet(n) == if Admitted(n.pc[t]) then rest + {t} else rest;
  }

  /** The two sets reduced to what a step needs: how many other threads are counted, and whether any
      other thread is admitted. */
  lemma Summary(s: State, o: Owners, n: State, t: Thread) returns (others: nat, admitted: bool)
    requires InvAt(s, o) && t in s.pc && t in n.pc && n.pc == s.pc[t := n.pc[t]]
    ensures s.readers == others + One(Counted(s.pc[t]))
    ensures |CountedSet(n)| == others + One(Counted(n.pc[t]))
    ensures AdmittedSet(s) != {} <==> admitted || Admitted(s.pc[t])
    ensures AdmittedSet(n) != {} <==> admitted || Admitted(n.pc[t])
    ensures o.counter == Some(t) ==> (admitted <==> others > 0)
  {
    hide Counted, Admitted, CountedSet, AdmittedSet, HoldsCounter, Writer, Local;
    others := CountedSummary(s, n, t);
    admitted := AdmittedSummary(s, n, t);
    if o.counter == Some(t) {
      OthersAreReaders(s, o, t);
    }
  }

  lemma CounterStep(s: State, o: Owners, t: Thread, c: Choice)
    requires InvAt(s, o) && t in s.pc && HoldsCounter(s.pc[t])
    ensures InvAt(Step(s, t, c), Moved(o, t, Step(s, t, c).pc[t]))
  {
    hide CountedSet, AdmittedSet, InvAt;
    var n := Step(s, t, c);
    ThreadFacts(s, o, t);
    var others, admitted := Summary(s, o, n, t);
    Reestablish(s, o, n, t);
  }

  lemma FreeStep(s: State, o: Owners, t: Thread, c: Choice)
    requires InvAt(s, o) && t in s.pc && !HoldsCounter(s.pc[t])
    ensures InvAt(Step(s, t, c), Moved(o, t, Step(s, t, c).pc[t]))
  {
    hide CountedSet, AdmittedSet, InvAt;
    var n := Step(s, t, c);
    ThreadFacts(s, o, t);
    var others, admitted := Summary(s, o, n, t);
    Reestablish(s, o, n, t);
  }

  /** Every step of every thread keeps the invariant. */
  lemma StepKeepsInv(s: State, t: Thread, c: Choice)
    requires Inv(s) && t in s.pc
    ensures Inv(Step(s, t, c))
  {
    hide InvAt, Step;
    var o :| InvAt(s, o);
    if HoldsCounter(s.pc[t]) {
      CounterStep(s, o, t, c);
    } else {
      FreeStep(s, o, t, c);
    }
  }

  lemma InitialInv(s: State)
    requires Initial(s)
    ensures Inv(s)
  {
    assert CountedSet(s) == {} && AdmittedSet(s) == {};
    assert InvAt(s, Owners(None, None));
  }

  lemma {:induction false} InvPersists(s: State, schedule: Schedule)
    requires Inv(s) && Schedules(s, schedule)
    ensures Inv(Run(s, schedule))
  {
    if schedule != [] {
      hide Inv, Step;
      var last := |schedule| - 1;
      InvPersists(s, schedule[..last]);
      StepKeepsInv(Run(s, schedule[..last]), schedule[last].0, schedule[last].1);
    }
  }

  lemma RunKeepsInv(s: State, schedule: Schedule)
    requires Initial(s) && Schedules(s, schedule)
    ensures Inv(Run(s, schedule))
  {
    InitialInv(s);
    InvPersists(s, schedule);
  }

  // ----- What the lock guarantees, in every interleaving -----

  /** A writer never coexists with a reader or with another writer. */
  lemma Exclusion(s: State, schedule: Schedule, t: Thread, u: Thread)
    requires Initial(s) && Schedules(s, schedule)
    requires t in s.pc && u in s.pc && t != u
    requires Run(s, schedule).pc[t] == Writing
    ensures Run(s, schedule).pc[u] != Reading && Run(s, schedule).pc[u] != Writing
  {
    var n := Run(s, schedule);
    RunKeepsInv(s, schedule);
    var o :| InvAt(n, o);
    assert Writer(n.pc[t]) && o.writer == Some(t);
    assert u !in AdmittedSet(n);
  }

  /** num_readers is the number of threads between the increment and the decrement, so it never
      exceeds the number of threads, and threads that are reading are among those counted. */
  lemma ReadersExact(s: State, schedule: Schedule)
    requires Initial(s) && Schedules(s, schedule)
    ensures Run(s, schedule).readers == |CountedSet(Run(s, schedule))| <= |s.pc|
    ensures forall t <- s.pc :: Run(s, schedule).pc[t] == Reading ==> t in CountedSet(Run(s, schedule))
  {
    var n := Run(s, schedule);
    RunKeepsInv(s, schedule);
    SubsetSize(CountedSet(n), n.pc.Keys);
  }

  lemma {:induction false} SubsetSize(a: set<Thread>, b: set<Thread>)
    requires a <= b
    ensures |a| <= |b|
  {
    if a != {} {
      var x :| x in a;
      SubsetSize(a - {x}, b - {x});
    }
  }

  /** try_read fails only while a writer holds the lock. */
  lemma FailsOnlyUnderWriter(s: State, schedule: Schedule, t: Thread)
    requires Initial(s) && Schedules(s, schedule) && t in s.pc
    requires Run(s, schedule).pc[t] == RTake
    ensures Run(s, schedule).wlock <==> exists u <- s.pc :: Writer(Run(s, schedule).pc[u])
  {
    var n := Run(s, schedule);
    RunKeepsInv(s, schedule);
    var o :| InvAt(n, o);
    assert o.counter == Some(t);
    var others, admitted := Summary(n, o, n, t);
  }

  /** The state with the attempt of thread t erased, for a t that is not admitted. */
  function Erased(s: State, t: Thread): State
    requires t in s.pc
  {
    var x := ErasedCell(See(s, t));
    State(x.readers, x.nrlock, x.wlock, s.pc[t := x.at])
  }

  function ErasedCell(x: Cell): Cell {
    Cell(
      if Counted(x.at) then x.readers - 1 else x.readers,
      if HoldsCounter(x.at) then false else x.nrlock,
      x.wlock, Outside)
  }

  /** The program points of an attempt that has not succeeded. */
  predicate Attempting(p: Pc) {
    || p.Outside? || p.RWait? || p.RLoad? || p.RStore? || p.RCheck? || p.RTake?
    || p.RUndoLoad? || p.RUndoStore? || p.RFail?
  }

  lemma ErasedMove(x: Cell)
    requires HoldsCounter(x.at) ==> x.nrlock
    requires Local(x.readers, x.at) && Attempting(x.at) && Attempting(Move(x, Read).at)
    ensures ErasedCell(Move(x, Read)) == ErasedCell(x)
  {
    match x.at
    case Outside =>
    case RWait =>
    case RLoad =>
    case RStore(seen) =>
    case RCheck =>
    case RTake =>
    case RUndoLoad =>
    case RUndoStore(seen) =>
    case RFail =>
  }

  lemma ErasedStep(n: State, t: Thread)
    requires Inv(n) && t in n.pc
    requires Attempting(n.pc[t]) && Attempting(Step(n, t, Read).pc[t])
    ensures Erased(Step(n, t, Read), t) == Erased(n, t)
  {
    var o :| InvAt(n, o);
    hide CountedSet, AdmittedSet, InvAt, ErasedCell, Move;
    ThreadFacts(n, o, t);
    ErasedMove(See(n, t));
    SeeStep(n, t, Read);
  }

  lemma SeeStep(n: State, t: Thread, c: Choice)
    requires t in n.pc
    ensures See(Step(n, t, c), t) == Move(See(n, t), c)
    ensures Step(n, t, c).pc[t := Outside] == n.pc[t := Outside]
  {
    hide Move;
  }

  /** A step of another thread is the same step with the attempt of t erased, or it only spins. */
  lemma OtherStep(n: State, u: Thread, c: Choice, t: Thread)
    requires Inv(n) && t in n.pc && u in n.pc && u != t && Attempting(n.pc[t])
    ensures u in Erased(n, t).pc
    ensures Erased(Step(n, u, c), t) == Erased(n, t) || Erased(Step(n, u, c), t) == Step(Erased(n, t), u, c)
  {
    var o :| InvAt(n, o);
    hide CountedSet, AdmittedSet, InvAt, Move;
    ThreadFacts(n, o, t);
    ThreadFacts(n, o, u);
    OtherMove(See(n, u), n.pc[t], c);
    var x := Move(See(n, u), c);
    assert n.pc[u := x.at][t := Outside] == n.pc[t := Outside][u := x.at];
    if See(n, u) == x {
      assert n.pc[u := x.at] == n.pc;
    }
  }

  /** The same for what u sees: the other thread is at p. */
  lemma OtherMove(x: Cell, p: Pc, c: Choice)
    requires Attempting(p) && (HoldsCounter(p) ==> x.nrlock && !HoldsCounter(x.at))
    ensures var y := Move(x, c);
            var readers := if Counted(p) then x.readers - 1 else x.readers;
            var nrlock := if HoldsCounter(p) then false else x.nrlock;
            || y == x
            || Move(Cell(readers, nrlock, x.wlock, x.at), c) ==
                Cell(if Counted(p) then y.readers - 1 else y.readers,
                     if HoldsCounter(p) then false else y.nrlock, y.wlock, y.at)
  {
    match x.at
    case Outside =>
    case RWait =>
    case RLoad =>
    case RStore(seen) =>
    case RCheck =>
    case RTake =>
    case RUndoLoad =>
    case RUndoStore(seen) =>
    case RFail =>
    case ROk =>
    case Reading =>
    case EWait =>
    case ELoad =>
    case EStore(seen) =>
    case ECheck =>
    case EFree =>
    case EDone =>
    case WTry =>
    case Writing =>
    case WEnd =>
  }

  /** The schedule never picks t. */
  ghost predicate Avoids(schedule: Schedule, t: Thread) {
    forall i: nat | i < |schedule| :: schedule[i].0 != t
  }

  /** Through the whole schedule t tries to read and is never admitted. */
  ghost predicate OnlyAttempts(s: State, schedule: Schedule, t: Thread)
    requires Schedules(s, schedule) && t in s.pc
  {
    && (forall k: nat {:trigger schedule[..k]} | k <= |schedule| :: Attempting(Run(s, schedule[..k]).pc[t]))
    && forall k: nat | k < |schedule| :: schedule[k].0 == t ==> schedule[k].1 == Read
  }

  lemma AttemptsBefore(s: State, schedule: Schedule, t: Thread)
    requires Schedules(s, schedule) && t in s.pc && schedule != [] && OnlyAttempts(s, schedule, t)
    ensures OnlyAttempts(s, schedule[..|schedule| - 1], t)
    ensures Attempting(Run(s, schedule).pc[t]) && Attempting(Run(s, schedule[..|schedule| - 1]).pc[t])
    ensures schedule[|schedule| - 1].0 == t ==> schedule[|schedule| - 1].1 == Read
  {
    hide Run;
    var before := schedule[..|schedule| - 1];
    assert schedule[..|schedule|] == schedule;
    forall k: nat {:trigger before[..k]} | k <= |before|
      ensures Attempting(Run(s, before[..k]).pc[t])
    {
      assert before[..k] == schedule[..k];
    }
  }

  /** The other threads get from s to n without t. */
  ghost predicate ReachedWithout(s: State, n: State, t: Thread) {
    exists rest: Schedule :: Schedules(s, rest) && Avoids(rest, t) && Run(s, rest) == n
  }

  /** Whatever the other threads do meanwhile, attempts to read that fail leave no trace: the other threads
      get to the same state without t, once what t has changed so far is erased. */
  lemma {:induction false} FailureLeavesNoTrace(s: State, schedule: Schedule, t: Thread)
    requires Inv(s) && Schedules(s, schedule) && t in s.pc && OnlyAttempts(s, schedule, t)
    ensures ReachedWithout(Erased(s, t), Erased(Run(s, schedule), t), t)
  {
    hide Inv, Step, Erased, Attempting, OnlyAttempts;
    if schedule == [] {
      assert Schedules(Erased(s, t), []) && Avoids([], t) && Run(Erased(s, t), []) == Erased(s, t);
    } else {
      var last := |schedule| - 1;
      var before := schedule[..last];
      var (u, c) := schedule[last];
      AttemptsBefore(s, schedule, t);
      FailureLeavesNoTrace(s, before, t);
      InvPersists(s, before);
      var n := Run(s, before);
      if u == t {
        ErasedStep(n, t);
      } else {
        OtherStep(n, u, c, t);
        OneStepMore(Erased(s, t), Erased(n, t), u, c, t);
      }
    }
  }

  lemma OneStepMore(s: State, n: State, u: Thread, c: Choice, t: Thread)
    requires ReachedWithout(s, n, t) && u in n.pc && u != t
    ensures ReachedWithout(s, Step(n, u, c), t)
  {
    hide Step;
    var rest: Schedule :| Schedules(s, rest) && Avoids(rest, t) && Run(s, rest) == n;
    var more := rest + [(u, c)];
    assert more[..|rest|] == rest && Avoids(more, t);
    assert Run(s, more) == Step(n, u, c);
  }

  /** From the start: after any schedule that leaves t outside, attempts of t that fail, mixed with any
      steps of the others, end in a state that the others reach without t. */
  lemma FailedAttemptIsInvisible(s: State, before: Schedule, attempt: Schedule, t: Thread)
    requires Initial(s) && t in s.pc && Schedules(s, before) && Schedules(s, attempt)
    requires Run(s, before).pc[t] == Outside && Run(Run(s, before), attempt).pc[t] == Outside
    requires OnlyAttempts(Run(s, before), attempt, t)
    ensures ReachedWithout(Run(s, before), Run(Run(s, before), attempt), t)
  {
    RunKeepsInv(s, before);
    var n := Run(s, before);
    FailureLeavesNoTrace(n, attempt, t);
    OutsideIsErased(n, t);
    OutsideIsErased(Run(n, attempt), t);
  }

  lemma OutsideIsErased(s: State, t: Thread)
    requires t in s.pc && s.pc[t] == Outside
    ensures Erased(s, t) == s
  {
    assert s.pc[t := Outside] == s.pc;
  }

  /** With every thread outside, the lock is as it was at the start. */
  lemma QuiescentIsInitial(s: State, schedule: Schedule)
    requires Initial(s) && Schedules(s, schedule)
    requires forall t <- s.pc :: Run(s, schedule).pc[t] == Outside
    ensures Run(s, schedule) == s
  {
    var n := Run(s, schedule);
    RunKeepsInv(s, schedule);
    assert CountedSet(n) == {} && AdmittedSet(n) == {};
    assert n.pc == s.pc;
  }

  // ----- The code, for a thread that is not disturbed -----

  /** A thread that runs alone for `steps` steps. */
  function Alone(x: Cell, c: Choice, steps: nat): Cell
    decreases steps
  {
    if steps == 0 then x else Alone(Move(x, c), c, steps - 1)
  }

  class Lock {
    var readers: int
    var nrlock: bool
    var wlock: bool

    /** The lock as a thread at p sees it. */
    ghost function View(p: Pc): Cell
      reads this
    {
      Cell(readers, nrlock, wlock, p)
    }

    constructor ()
      ensures View(Outside) == Cell(0, false, false, Outside)
    {
      readers, nrlock, wlock := 0, false, false;
    }

    method TryRead() returns (ok: bool)
      requires !nrlock
      modifies this
      ensures ok <==> old(readers) != 0 || !old(wlock)
      ensures ok ==> View(Reading) == Alone(old(View(Outside)), Read, if old(readers) == 0 then 7 else 6)
      ensures !ok ==> View(Outside) == Alone(old(View(Outside)), Read, 9) == old(View(Outside))
    {
      if readers == 0 && wlock {
        SoloFail(View(Outside));
      } else {
        SoloRead(View(Outside));
      }
      hide Move, Alone;
      nrlock := true;
      readers := readers + 1;
      if readers == 1 {
        if wlock {
          readers := readers - 1;
          nrlock := false;
          return false;
        }
        wlock := true;
      }
      nrlock := false;
      return true;
    }

    method EndRead()
      requires !nrlock
      modifies this
      ensures View(Outside) == Alone(old(View(Reading)), Read, if old(readers) == 1 then 7 else 6)
    {
      SoloEnd(View(Reading));
      hide Move, Alone;
      nrlock := true;
      readers := readers - 1;
      if readers == 0 {
        wlock := false;
      }
      nrlock := false;
    }

    method TryWrite() returns (ok: bool)
      modifies this
      ensures ok <==> !old(wlock)
      ensures View(if ok then Writing else Outside) == Alone(old(View(Outside)), Write, 2)
    {
      ok := !wlock;
      wlock := true;
    }

    method EndWrite()
      modifies this
      ensures View(Outside) == Alone(old(View(Writing)), Write, 2)
    {
      wlock := false;
    }
  }

  lemma TwoSteps(x: Cell, c: Choice, n: nat)
    ensures Alone(x, c, n + 2) == Alone(Move(Move(x, c), c), c, n)
  {
    assert Alone(x, c, n + 2) == Alone(Move(x, c), c, n + 1);
  }

  /** Taking the counter and changing it takes four steps, in try_read and in end_read. */
  lemma ToCheck(x: Cell, n: nat)
    requires !x.nrlock && (x.at == Outside || x.at == Reading)
    ensures Alone(x, Read, n + 4) ==
            if x.at == Outside then Alone(Cell(x.readers + 1, true, x.wlock, RCheck), Read, n)
            else Alone(Cell(x.readers - 1, true, x.wlock, ECheck), Read, n)
  {
    TwoSteps(x, Read, n + 2);
    TwoSteps(Move(Move(x, Read), Read), Read, n);
  }

  lemma SoloRead(x: Cell)
    requires x.at == Outside && !x.nrlock && (x.readers != 0 || !x.wlock)
    ensures Alone(x, Read, if x.readers == 0 then 7 else 6) ==
            Cell(x.readers + 1, false, x.readers == 0 || x.wlock, Reading)
  {
    var y := Cell(x.readers + 1, true, x.wlock, RCheck);
    ToCheck(x, if x.readers == 0 then 3 else 2);
    if x.readers == 0 {
      assert Alone(y, Read, 3) == Alone(Move(y, Read), Read, 2);
    }
  }

  /** The failing tail of try_read: undo the increment and give the counter back. */
  lemma Undo()
    ensures Alone(Cell(1, true, true, RTake), Read, 4) == Cell(0, false, true, Outside)
  {
    TwoSteps(Cell(1, true, true, RTake), Read, 2);
    assert Move(Move(Cell(1, true, true, RTake), Read), Read) == Cell(1, true, true, RUndoStore(1));
    TwoSteps(Cell(1, true, true, RUndoStore(1)), Read, 0);
  }

  lemma SoloFail(x: Cell)
    requires x.at == Outside && !x.nrlock && x.readers == 0 && x.wlock
    ensures Alone(x, Read, 9) == x
  {
    ToCheck(x, 5);
    assert Move(Cell(1, true, true, RCheck), Read) == Cell(1, true, true, RTake);
    Undo();
  }

  lemma SoloEnd(x: Cell)
    requires x.at == Reading && !x.nrlock
    ensures Alone(x, Read, if x.readers == 1 then 7 else 6) ==
            Cell(x.readers - 1, false, x.readers != 1 && x.wlock, Outside)
  {
    var y := Cell(x.readers - 1, true, x.wlock, ECheck);
    ToCheck(x, if x.readers == 1 then 3 else 2);
    if x.readers == 1 {
      assert Move(y, Read) == Cell(0, true, x.wlock, EFree);
      assert Move(Cell(0, true, x.wlock, EFree), Read) == Cell(0, true, false, EDone);
      TwoSteps(y, Read, 1);
    } else {
      assert Move(y, Read) == Cell(x.readers - 1, true, x.wlock, EDone);
      TwoSteps(y, Read, 0);
    }
  }
}

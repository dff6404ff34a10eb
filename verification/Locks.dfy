// The two locks every database write passes: the process-wide queue lock `_write_lock`, and SQLite's own
// write lock, which belongs to whichever connection has written and not yet committed. Each thread has
// one connection.
module Locks {
  import opened Wrappers

  datatype Place =
    | Outside   // not in the queue
    | Queued    // waiting for _write_lock
    | Body      // holds _write_lock, inside the `writing` block
    | Leaving   // the block has ended, _write_lock not yet given back

  // `open`: the connection is in a transaction, with the statements in `pending`; `kept` are those it has
  // committed. `busy`: a statement sleeps in SQLite's busy handler.
  datatype Thread = Thread(place: Place, open: bool, busy: Option<string>, pending: seq<string>, kept: seq<string>)

  datatype State = State(threads: seq<Thread>, queue: Option<nat>, sql: Option<nat>)

  datatype Step =
    | Execute(i: nat, w: string)    // a statement that writes; the driver opens a transaction first
    | Granted(i: nat)               // SQLite's lock came free
    | TimedOut(i: nat)              // "database is locked" after busy_timeout
    | Commit(i: nat)
    | Rollback(i: nat)              // also update_one, when its statement changed no row
    | Enter(i: nat, settle: bool)   // starts an operation that takes _write_lock, settling first or not
    | SettleFails(i: nat)           // the commit in _settle raised
    | Acquire(i: nat)
    | EndBody(i: nat, ok: bool)     // `writing` commits, or something raised, be it the commit, and it rolls back
    | Leave(i: nat)

  // The connection ends its transaction, which also frees the lock it may hold.
  function Close(s: State, i: nat, place: Place, commit: bool): State
    requires i < |s.threads|
  {
    var t := s.threads[i];
    s.(threads := s.threads[i := Thread(place, false, None, [], if commit then t.kept + t.pending else t.kept)],
       sql := if s.sql == Some(i) then None else s.sql)
  }

  function Write(s: State, i: nat, w: string): State
    requires i < |s.threads|
  {
    s.(threads := s.threads[i := s.threads[i].(busy := None, pending := s.threads[i].pending + [w])], sql := Some(i))
  }

  function Set(s: State, i: nat, t: Thread): State
    requires i < |s.threads|
  {
    s.(threads := s.threads[i := t])
  }

  predicate Runs(t: Thread) { t.busy.None? && (t.place.Outside? || t.place.Body?) }

  function Next(s: State, step: Step): State {
    var i := step.i;
    if i >= |s.threads| then s
    else
      var t := s.threads[i];
      var runs := Runs(t);
      match step
      case Execute(_, w) =>
        if !runs then s
        else if s.sql == Some(i) then Write(s, i, w)
        else if !t.open then Set(s, i, t.(open := true, busy := Some(w)))
        else if s.sql.None? then Write(s, i, w)
        // inside an open transaction SQLite does not wait: the statement fails at once
        else if t.place.Body? then Close(s, i, Leaving, false)
        else s
      case Granted(_) => if t.busy.Some? && s.sql.None? then Write(s, i, t.busy.value) else s
      case TimedOut(_) =>
        if t.busy.None? then s
        else if t.place.Body? then Close(s, i, Leaving, false)
        else Set(s, i, t.(busy := None))
      case Commit(_) => if runs && t.place.Outside? then Close(s, i, Outside, true) else s
      case Rollback(_) => if runs then Close(s, i, t.place, false) else s
      case Enter(_, settle) =>
        if !runs then s
        else if settle then Close(s, i, Queued, true)
        else Set(s, i, t.(place := Queued))
      case SettleFails(_) => s
      case Acquire(_) =>
        if t.place.Queued? && s.queue.None? then Set(s.(queue := Some(i)), i, t.(place := Body)) else s
      case EndBody(_, ok) => if runs && t.place.Body? then Close(s, i, Leaving, ok) else s
      case Leave(_) => if t.place.Leaving? then Set(s.(queue := None), i, t.(place := Outside)) else s
  }

  function Run(s: State, steps: seq<Step>): State {
    if steps == [] then s else Next(Run(s, steps[..|steps| - 1]), steps[|steps| - 1])
  }

  // The rule at the top of db.py: an operation that takes _write_lock starts outside the queue, and does
  // not carry SQLite's lock into it.
  predicate Obeys(s: State, step: Step) {
    step.Enter? && step.i < |s.threads| ==>
      s.threads[step.i].place.Outside? && (step.settle || s.sql != Some(step.i))
  }

  predicate ObeysAll(s: State, steps: seq<Step>) {
    steps == [] ||
    (ObeysAll(s, steps[..|steps| - 1]) && Obeys(Run(s, steps[..|steps| - 1]), steps[|steps| - 1]))
  }

  predicate Settles(step: Step) { step.Enter? ==> step.settle }

  predicate FromOutside(s: State, step: Step) {
    step.Enter? && step.i < |s.threads| ==> s.threads[step.i].place.Outside?
  }

  ghost predicate ThreadOk(s: State, i: nat)
    requires i < |s.threads|
  {
    var t := s.threads[i];
    && (t.place.Body? || t.place.Leaving? <==> s.queue == Some(i))
    && (t.busy.Some? ==> t.open && (t.place.Outside? || t.place.Body?))
    && (s.sql == Some(i) ==> t.open && t.busy.None? && !t.place.Queued?)
    && (t.place.Leaving? ==> !t.open)
    && (t.pending != [] ==> s.sql == Some(i))
  }

  ghost predicate Inv(s: State) {
    && (s.queue.Some? ==> s.queue.value < |s.threads|)
    && (s.sql.Some? ==> s.sql.value < |s.threads|)
    && forall i: nat | i < |s.threads| :: ThreadOk(s, i)
  }

  predicate Init(s: State) {
    && s.queue.None? && s.sql.None?
    && forall i: nat | i < |s.threads| :: s.threads[i] == Thread(Outside, false, None, [], [])
  }

  // Thread i cannot go on until thread j does.
  predicate WaitsFor(s: State, i: nat, j: nat) {
    && i < |s.threads|
    && ((s.threads[i].place.Queued? && s.queue == Some(j)) || (s.threads[i].busy.Some? && s.sql == Some(j)))
  }

  // Threads each waiting for the next one, and the last for the first.
  predicate Cycle(s: State, ring: seq<nat>) {
    && |ring| > 0
    && (forall k | 0 <= k < |ring| - 1 :: WaitsFor(s, ring[k], ring[k + 1]))
    && WaitsFor(s, ring[|ring| - 1], ring[0])
  }

  lemma StepKeeps(s: State, step: Step)
    requires Inv(s) && Obeys(s, step)
    ensures Inv(Next(s, step))
  {
    var e := Next(s, step);
    forall i: nat | i < |e.threads| ensures ThreadOk(e, i) {
      assert ThreadOk(s, i);
      if step.i < |s.threads| { assert ThreadOk(s, step.i); }
    }
  }

  lemma {:induction false} RunKeeps(s: State, steps: seq<Step>)
    requires Init(s) && ObeysAll(s, steps)
    ensures Inv(Run(s, steps))
  {
    hide Next, Obeys;
    if steps != [] {
      RunKeeps(s, steps[..|steps| - 1]);
      hide Inv;
      StepKeeps(Run(s, steps[..|steps| - 1]), steps[|steps| - 1]);
    }
  }

  // Waiting only ever goes up: from the queue to the holder of _write_lock, from SQLite's lock to a
  // thread that waits for nothing.
  function Rank(s: State, i: nat): nat
    requires i < |s.threads|
  {
    if s.threads[i].place.Queued? then 0 else if s.threads[i].busy.Some? then 1 else 2
  }

  lemma WaitingClimbs(s: State, i: nat, j: nat)
    requires Inv(s) && WaitsFor(s, i, j)
    ensures j < |s.threads| && Rank(s, i) < Rank(s, j)
  {
    assert ThreadOk(s, i);
    assert ThreadOk(s, j);
  }

  lemma {:induction false} ChainClimbs(s: State, chain: seq<nat>)
    requires Inv(s) && |chain| > 1 && chain[0] < |s.threads|
    requires forall k | 0 <= k < |chain| - 1 :: WaitsFor(s, chain[k], chain[k + 1])
    ensures chain[|chain| - 1] < |s.threads| && Rank(s, chain[0]) < Rank(s, chain[|chain| - 1])
  {
    hide Inv, Rank;
    WaitingClimbs(s, chain[|chain| - 2], chain[|chain| - 1]);
    if |chain| > 2 {
      var front := chain[..|chain| - 1];
      forall k | 0 <= k < |front| - 1 ensures WaitsFor(s, front[k], front[k + 1]) {
        assert WaitsFor(s, chain[k], chain[k + 1]);
      }
      ChainClimbs(s, front);
    }
  }

  lemma NoCycle(s: State, ring: seq<nat>)
    requires Inv(s)
    ensures !Cycle(s, ring)
  {
    if Cycle(s, ring) {
      var chain := ring + [ring[0]];
      assert forall k | 0 <= k < |ring| :: chain[k] == ring[k];
      assert forall k | 0 <= k < |chain| - 1 :: WaitsFor(s, chain[k], chain[k + 1]);
      ChainClimbs(s, chain);
      assert false;
    }
  }

  // Any number of threads that keep to the rule never wait for each other in a circle, the thread that
  // waits for _write_lock does not hold SQLite's lock, and a `writing` block that has ended, by commit or
  // by an exception, has left no open transaction and no lock behind.
  lemma LockOrder(s: State, steps: seq<Step>)
    requires Init(s) && ObeysAll(s, steps)
    ensures forall ring :: !Cycle(Run(s, steps), ring)
    ensures (forall i: nat | i < |Run(s, steps).threads| ::
      && (Run(s, steps).threads[i].place.Queued? ==> Run(s, steps).sql != Some(i))
      && (Run(s, steps).threads[i].place.Leaving? ==> !Run(s, steps).threads[i].open && Run(s, steps).sql != Some(i)))
  {
    RunKeeps(s, steps);
    hide Run, Next;
    var e := Run(s, steps);
    forall ring ensures !Cycle(e, ring) { NoCycle(e, ring); }
    forall i: nat | i < |e.threads|
      ensures e.threads[i].place.Queued? ==> e.sql != Some(i)
      ensures e.threads[i].place.Leaving? ==> !e.threads[i].open && e.sql != Some(i)
    {
      assert ThreadOk(e, i);
    }
  }

  // Threads whose operations all settle, started outside the queue, keep to the rule.
  lemma {:induction false} SettlingObeys(s: State, steps: seq<Step>)
    requires forall k | 0 <= k < |steps| :: Settles(steps[k]) && FromOutside(Run(s, steps[..k]), steps[k])
    ensures ObeysAll(s, steps)
  {
    hide Next, Run;
    if steps != [] {
      var front := steps[..|steps| - 1];
      assert forall k | 0 <= k < |front| :: front[k] == steps[k] && front[..k] == steps[..k];
      SettlingObeys(s, front);
      assert Settles(steps[|steps| - 1]);
    }
  }

  // Whoever waits, some thread can take a step that needs no lock to come free, or the lock is free now.
  lemma SomebodyRuns(s: State, i: nat)
    requires Inv(s) && i < |s.threads| && Rank(s, i) < 2
    ensures exists j: nat :: j < |s.threads| && (j == i || WaitsFor(s, i, j) || WaitsSecond(s, i, j)) &&
                             (Rank(s, j) == 2 || LockFree(s, j))
  {
    assert ThreadOk(s, i);
    if !LockFree(s, i) {
      var j: nat := if s.threads[i].place.Queued? then s.queue.value else s.sql.value;
      assert WaitsFor(s, i, j);
      WaitingClimbs(s, i, j);
      if Rank(s, j) < 2 && !LockFree(s, j) {
        var k := s.sql.value;
        assert WaitsFor(s, j, k);
        WaitingClimbs(s, j, k);
        assert WaitsSecond(s, i, k);
      }
    }
  }

  predicate LockFree(s: State, i: nat) {
    i < |s.threads| && ((s.threads[i].place.Queued? && s.queue.None?) || (s.threads[i].busy.Some? && s.sql.None?))
  }

  ghost predicate WaitsSecond(s: State, i: nat, k: nat) { exists j: nat :: WaitsFor(s, i, j) && WaitsFor(s, j, k) }

  // Exactly which entries endanger the others: with another thread idle and the queue empty, a circle of
  // waiting threads can follow, with every later step keeping to the rule, if and only if the thread
  // enters the queue with SQLite's lock in its hand and does not settle.
  lemma EntryDeadlocksIff(s: State, i: nat, j: nat, settle: bool)
    requires Inv(s) && i < |s.threads| && s.threads[i].place.Outside? && Runs(s.threads[i])
    requires i != j < |s.threads| && s.threads[j].place.Outside? && Runs(s.threads[j])
    requires s.queue.None?
    ensures (!settle && s.sql == Some(i)) <==> CanDeadlock(Next(s, Enter(i, settle)))
  {
    var e := Next(s, Enter(i, settle));
    if !settle && s.sql == Some(i) {
      HeldEntryDeadlocks(s, i, j);
    } else {
      StepKeeps(s, Enter(i, settle));
      forall steps | ObeysAll(e, steps) ensures forall ring :: !Cycle(Run(e, steps), ring) {
        InvRunKeeps(e, steps);
        forall ring ensures !Cycle(Run(e, steps), ring) { NoCycle(Run(e, steps), ring); }
      }
    }
  }

  ghost predicate CanDeadlock(s: State) {
    exists steps, ring :: ObeysAll(s, steps) && Cycle(Run(s, steps), ring)
  }

  lemma {:induction false} InvRunKeeps(s: State, steps: seq<Step>)
    requires Inv(s) && ObeysAll(s, steps)
    ensures Inv(Run(s, steps))
  {
    hide Next, Obeys, Inv;
    if steps != [] {
      InvRunKeeps(s, steps[..|steps| - 1]);
      StepKeeps(Run(s, steps[..|steps| - 1]), steps[|steps| - 1]);
    }
  }

  lemma HeldEntryDeadlocks(s: State, i: nat, j: nat)
    requires Inv(s) && i < |s.threads| && s.threads[i].place.Outside? && Runs(s.threads[i])
    requires i != j < |s.threads| && s.threads[j].place.Outside? && Runs(s.threads[j])
    requires s.queue.None? && s.sql == Some(i)
    ensures CanDeadlock(Next(s, Enter(i, false)))
  {
    var e := Next(s, Enter(i, false));
    var e1 := Next(e, Enter(j, true));
    var e2 := Next(e1, Acquire(j));
    var e3 := Next(e2, Execute(j, ""));
    assert Obeys(e, Enter(j, true));
    assert WaitsFor(e3, i, j) && WaitsFor(e3, j, i);
    assert Cycle(e3, [i, j]);
    RunOfThree(e, Enter(j, true), Acquire(j), Execute(j, ""));
  }

  lemma RunOfThree(s: State, a: Step, b: Step, c: Step)
    requires !b.Enter? && !c.Enter? && Obeys(s, a)
    ensures Run(s, [a, b, c]) == Next(Next(Next(s, a), b), c) && ObeysAll(s, [a, b, c])
  {
    hide Next;
    assert [a, b, c][..2] == [a, b] && [a, b][..1] == [a] && [a][..0] == [];
    assert Run(s, []) == s;
    assert Run(s, [a]) == Next(s, a) && ObeysAll(s, [a]);
    assert Run(s, [a, b]) == Next(Next(s, a), b) && ObeysAll(s, [a, b]);
  }

  // _write_lock is not reentrant: an operation that starts inside a `writing` block waits for itself.
  lemma EntryInsideBlocksItself(s: State, i: nat, settle: bool)
    requires Inv(s) && i < |s.threads| && s.threads[i].place.Body? && Runs(s.threads[i])
    ensures Cycle(Next(s, Enter(i, settle)), [i])
  {
    assert ThreadOk(s, i);
  }

  // The statements of thread i that took effect in a step, and in a run, in order.
  function Effect(s: State, step: Step, i: nat): seq<string> {
    if step.i != i || i >= |s.threads| then []
    else
      var t := s.threads[i];
      match step
      case Execute(_, w) => if Runs(t) && (s.sql == Some(i) || (t.open && s.sql.None?)) then [w] else []
      case Granted(_) => if t.busy.Some? && s.sql.None? then [t.busy.value] else []
      case _ => []
  }

  function Executed(s: State, steps: seq<Step>, i: nat): seq<string> {
    if steps == [] then []
    else Executed(s, steps[..|steps| - 1], i) + Effect(Run(s, steps[..|steps| - 1]), steps[|steps| - 1], i)
  }

  // The thread stays in the queue, the block or on its way out.
  predicate Inside(s: State, steps: seq<Step>, i: nat) {
    var e := Run(s, steps);
    && i < |e.threads| && !e.threads[i].place.Outside?
    && (steps == [] || Inside(s, steps[..|steps| - 1], i))
  }

  // No update of the block misses its row after the block has written something.
  predicate NoMiss(s: State, step: Step, i: nat) {
    step == Rollback(i) && i < |s.threads| ==> s.threads[i].pending == []
  }

  predicate NoMisses(s: State, steps: seq<Step>, i: nat) {
    steps == [] || (NoMisses(s, steps[..|steps| - 1], i) && NoMiss(Run(s, steps[..|steps| - 1]), steps[|steps| - 1], i))
  }

  // The step in which `writing` commits the block of thread i.
  predicate Commits(s: State, step: Step, i: nat) {
    step == EndBody(i, true) && i < |s.threads| && s.threads[i].place.Body? && s.threads[i].busy.None?
  }

  predicate Committed(s: State, steps: seq<Step>, i: nat) {
    steps != [] &&
    (Committed(s, steps[..|steps| - 1], i) || Commits(Run(s, steps[..|steps| - 1]), steps[|steps| - 1], i))
  }

  // A block of writes is kept as a whole if `writing` came to its commit, and not at all if anything was
  // raised before it, whatever the others do; until the block ends nothing of it is kept.
  lemma {:induction false} BlockIsAtomic(s: State, steps: seq<Step>, i: nat)
    requires Inv(s) && ObeysAll(s, steps) && Inside(s, steps, i)
    requires i < |s.threads| && s.threads[i].place.Queued? && NoMisses(s, steps, i)
    ensures var was, t := s.threads[i], Run(s, steps).threads[i];
      && (t.place.Leaving? ==> t.kept == was.kept + if Committed(s, steps, i) then Executed(s, steps, i) else [])
      && (!t.place.Leaving? ==> !Committed(s, steps, i) && t.kept == was.kept && t.pending == Executed(s, steps, i))
  {
    if steps == [] {
      assert ThreadOk(s, i);
    } else {
      var front := steps[..|steps| - 1];
      BlockIsAtomic(s, front, i);
      InvRunKeeps(s, front);
      hide Run, Executed, Inv, ObeysAll, NoMisses;
      BlockStep(Run(s, front), steps[|steps| - 1], i);
    }
  }

  // What one step does to a thread that does not leave the block.
  lemma BlockStep(s: State, step: Step, i: nat)
    requires Inv(s) && i < |s.threads| && !s.threads[i].place.Outside? && Obeys(s, step) && NoMiss(s, step, i)
    ensures i < |Next(s, step).threads|
    ensures !Next(s, step).threads[i].place.Outside? ==>
      var was, t := s.threads[i], Next(s, step).threads[i];
      && (was.place.Leaving? ==> t.place.Leaving? && t.kept == was.kept && Effect(s, step, i) == [])
      && (!was.place.Leaving? && !t.place.Leaving? ==>
            !Commits(s, step, i) && t.kept == was.kept && t.pending == was.pending + Effect(s, step, i))
      && (!was.place.Leaving? && t.place.Leaving? ==>
            Effect(s, step, i) == [] && t.kept == was.kept + if Commits(s, step, i) then was.pending else [])
  {
    assert ThreadOk(s, i);
  }

  // A step commits for thread i in three cases only, and then all that is pending.
  lemma KeptOnlyBy(s: State, step: Step, i: nat)
    requires Inv(s) && i < |s.threads|
    ensures i < |Next(s, step).threads|
    ensures var t := s.threads[i];
      Next(s, step).threads[i].kept == t.kept +
        if Commits(s, step, i) || (Runs(t) && (step == Enter(i, true) || (step == Commit(i) && t.place.Outside?)))
        then t.pending else []
  { }

  // A block that raises, a wait that times out in it, and a write that finds SQLite's lock taken while a
  // transaction is open, each end it with nothing of it kept and no lock but _write_lock in hand.
  lemma RaisingEndsBlock(s: State, step: Step, i: nat)
    requires Inv(s) && i < |s.threads| && s.threads[i].place.Body?
    requires var t := s.threads[i];
      || (step == EndBody(i, false) && t.busy.None?)
      || (step == TimedOut(i) && t.busy.Some?)
      || (step.Execute? && step.i == i && t.busy.None? && t.open && s.sql.Some? && s.sql != Some(i))
    ensures Next(s, step).threads == s.threads[i := Thread(Leaving, false, None, [], s.threads[i].kept)]
    ensures Next(s, step).queue == Some(i) && Next(s, step).sql == if s.sql == Some(i) then None else s.sql
  {
    assert ThreadOk(s, i);
  }

  // A missed update in the middle of a block does break it in two: what came before is lost, and what
  // comes after is kept.
  lemma MissSplitsBlock(s: State, i: nat, w: string)
    requires Inv(s) && i < |s.threads| && s.threads[i].place.Body? && s.threads[i].pending != []
    ensures Next(Next(Next(Next(s, Rollback(i)), Execute(i, w)), Granted(i)), EndBody(i, true)).threads[i].kept ==
            s.threads[i].kept + [w]
  {
    assert ThreadOk(s, i);
    var a := Next(Next(s, Rollback(i)), Execute(i, w));
    assert a.threads[i] == Thread(Body, true, Some(w), [], s.threads[i].kept) && a.sql.None?;
  }

  predicate Discards(s: State, step: Step, i: nat) {
    step.i == i && (step.Rollback? || (step.EndBody? && !step.ok) || step.TimedOut? || step.Execute?) &&
    i < |s.threads| && i < |Next(s, step).threads| && s.threads[i].open && !Next(s, step).threads[i].open
  }

  predicate NeverDiscards(s: State, steps: seq<Step>, i: nat) {
    steps == [] ||
    (NeverDiscards(s, steps[..|steps| - 1], i) && !Discards(Run(s, steps[..|steps| - 1]), steps[|steps| - 1], i))
  }

  // A thread that never rolls back loses nothing: all it executed is committed or pending, in order.
  // Settling commits what the caller wrote.
  lemma {:induction false} NothingLost(s: State, steps: seq<Step>, i: nat)
    requires Inv(s) && ObeysAll(s, steps) && NeverDiscards(s, steps, i) && i < |s.threads|
    ensures i < |Run(s, steps).threads|
    ensures var was, t := s.threads[i], Run(s, steps).threads[i];
      t.kept + t.pending == was.kept + was.pending + Executed(s, steps, i)
  {
    if steps != [] {
      var front := steps[..|steps| - 1];
      NothingLost(s, front, i);
      InvRunKeeps(s, front);
      hide Run, Executed, Inv, ObeysAll, NeverDiscards;
      KeptStep(Run(s, front), steps[|steps| - 1], i);
    }
  }

  lemma KeptStep(s: State, step: Step, i: nat)
    requires Inv(s) && i < |s.threads| && !Discards(s, step, i)
    ensures i < |Next(s, step).threads|
    ensures var was, t := s.threads[i], Next(s, step).threads[i];
      t.kept + t.pending == was.kept + was.pending + Effect(s, step, i)
  {
    assert ThreadOk(s, i);
  }

  // A write that timed out outside a block leaves its transaction open, and in an open transaction the next
  // write does not wait again: it fails at once for as long as another thread holds SQLite's lock.
  lemma TimedOutStaysOpen(s: State, i: nat, w: string)
    requires Inv(s) && i < |s.threads| && s.threads[i].place.Outside? && s.threads[i].busy.Some?
    ensures var e := Next(s, TimedOut(i));
      && e.threads[i] == s.threads[i].(busy := None) && e.threads[i].open && e.sql == s.sql
      && (s.sql.Some? ==> Next(e, Execute(i, w)) == e)
      && (s.sql.None? ==> Next(e, Execute(i, w)).sql == Some(i) && Next(e, Execute(i, w)).threads[i].pending == [w])
  {
    assert ThreadOk(s, i);
  }

  lemma {:induction false} RunSplits(s: State, a: seq<Step>, b: seq<Step>)
    ensures Run(s, a + b) == Run(Run(s, a), b)
  {
    hide Next;
    if b == [] {
      assert a + b == a;
    } else {
      assert (a + b)[..|a + b| - 1] == a + b[..|b| - 1];
      RunSplits(s, a, b[..|b| - 1]);
    }
  }

  lemma OneMore(s: State, steps: seq<Step>, step: Step) returns (more: seq<Step>)
    ensures more == steps + [step] && Run(s, more) == Next(Run(s, steps), step)
  {
    more := steps + [step];
    assert more[..|more| - 1] == steps;
  }

  // A block in hand that has executed these statements.
  function Holding(s: State, i: nat, ws: seq<string>): State
    requires i < |s.threads|
  {
    State(s.threads[i := Thread(Body, ws != [], None, ws, s.threads[i].kept)], Some(i),
          if ws == [] then None else Some(i))
  }

  lemma {:induction false} BlockExecutes(s: State, i: nat, ws: seq<string>) returns (steps: seq<Step>)
    requires i < |s.threads| && s.threads[i] == Thread(Queued, false, None, [], s.threads[i].kept)
    requires s.queue.None? && s.sql.None?
    ensures Run(s, steps) == Holding(s, i, ws)
  {
    hide Run;
    if ws == [] {
      steps := OneMore(s, [], Acquire(i));
      assert Run(s, []) == s by { NoStep(s); }
    } else {
      var front, w := ws[..|ws| - 1], ws[|ws| - 1];
      var some := BlockExecutes(s, i, front);
      steps := OneMore(s, some, Execute(i, w));
      if front == [] { steps := OneMore(s, steps, Granted(i)); }
      assert front + [w] == ws;
    }
  }

  lemma NoStep(s: State)
    ensures Run(s, []) == s
  { }

  // With both locks free a `writing` block of any number of statements can run to its end. Then they are all
  // committed, in order, after what settling committed, both locks are free again, and no other thread
  // has been touched.
  lemma BlockCompletes(s: State, i: nat, ws: seq<string>) returns (steps: seq<Step>)
    requires Inv(s) && i < |s.threads| && s.threads[i].place.Outside? && Runs(s.threads[i])
    requires s.queue.None? && s.sql in {None, Some(i)}
    ensures var t := s.threads[i];
      Run(s, steps) == State(s.threads[i := Thread(Outside, false, None, [], t.kept + t.pending + ws)], None, None)
  {
    hide Run;
    assert ThreadOk(s, i);
    var first := OneMore(s, [], Enter(i, true));
    assert Run(s, []) == s by { NoStep(s); }
    var q := Run(s, first);
    var body := BlockExecutes(q, i, ws);
    RunSplits(s, first, body);
    steps := OneMore(s, first + body, EndBody(i, true));
    steps := OneMore(s, steps, Leave(i));
  }
}

/**
 The migration runner of the admin panel (admin-panel/internal/db/db.go), run by any number of
 replicas at once on one database. A replica may crash at any step; the crash gives up the
 advisory lock and rolls its open transaction back.
 */
module Migrate {
  import opened Common

  /** Where a replica stands in Migrate. */
  datatype Pc =
    | Waiting
    | Locked
    | Looping(applied: set<string>, i: nat)
    | InTx(applied: set<string>, i: nat, ran: bool)
    | Unlocking(ok: bool)
    | Returned(ok: bool)

  /**
   The database and the replicas: the names in schema_migrations, the migrations whose effects
   have been committed, in order, and the holder of the advisory lock.
   */
  datatype State = State(recorded: set<string>, effects: seq<string>, lock: Option<nat>, pcs: map<nat, Pc>)

  datatype Event =
    | Arrive(r: nat)
    | Acquire(r: nat)
    | Read(r: nat, seen: set<string>)
    | Skip(r: nat)
    | Begin(r: nat)
    | Exec(r: nat)
    | Commit(r: nat)
    | Finish(r: nat)
    | Fail(r: nat)
    | Unlock(r: nat)
    | Crash(r: nat)

  predicate At(s: State, r: nat, pc: Pc) {
    r in s.pcs && s.pcs[r] == pc
  }

  function Goto(s: State, r: nat, pc: Pc): State {
    s.(pcs := s.pcs[r := pc])
  }

  /**
   May the step be taken? The names are the sorted file names, the same for every replica. A read of
   schema_migrations that the database ends early with an error is not told from one that is complete,
   so a replica may go on with any part of what is recorded.
   */
  predicate Enabled(names: seq<string>, s: State, e: Event) {
    match e
    case Arrive(r) => r !in s.pcs
    case Acquire(r) => At(s, r, Waiting) && s.lock.None?
    case Read(r, seen) => At(s, r, Locked) && seen <= s.recorded
    case Skip(r) => r in s.pcs && s.pcs[r].Looping? && s.pcs[r].i < |names| && names[s.pcs[r].i] in s.pcs[r].applied
    case Begin(r) => r in s.pcs && s.pcs[r].Looping? && s.pcs[r].i < |names| && names[s.pcs[r].i] !in s.pcs[r].applied
    case Exec(r) => r in s.pcs && s.pcs[r].InTx? && !s.pcs[r].ran
    case Commit(r) => r in s.pcs && s.pcs[r].InTx? && s.pcs[r].ran && s.pcs[r].i < |names|
    case Finish(r) => r in s.pcs && s.pcs[r].Looping? && s.pcs[r].i >= |names|
    case Fail(r) => r in s.pcs && (s.pcs[r].Locked? || s.pcs[r].Looping? || s.pcs[r].InTx?)
    case Unlock(r) => r in s.pcs && s.pcs[r].Unlocking?
    case Crash(r) => r in s.pcs
  }

  function Next(names: seq<string>, s: State, e: Event): State
    requires Enabled(names, s, e)
  {
    match e
    case Arrive(r) => Goto(s, r, Waiting)
    case Acquire(r) => Goto(s, r, Locked).(lock := Some(r))
    case Read(r, seen) => Goto(s, r, Looping(seen, 0))
    case Skip(r) => Goto(s, r, Looping(s.pcs[r].applied, s.pcs[r].i + 1))
    case Begin(r) => Goto(s, r, InTx(s.pcs[r].applied, s.pcs[r].i, false))
    case Exec(r) => Goto(s, r, InTx(s.pcs[r].applied, s.pcs[r].i, true))
    case Commit(r) =>
      // The migration's own effects and the row with its name, at once.
      Goto(s, r, Looping(s.pcs[r].applied, s.pcs[r].i + 1))
      .(recorded := s.recorded + {names[s.pcs[r].i]}, effects := s.effects + [names[s.pcs[r].i]])
    case Finish(r) => Goto(s, r, Unlocking(true))
    case Fail(r) => Goto(s, r, Unlocking(false))
    case Unlock(r) => Goto(s, r, Returned(s.pcs[r].ok)).(lock := None)
    case Crash(r) => s.(pcs := s.pcs - {r}, lock := if s.lock == Some(r) then None else s.lock)
  }

  /** The names still to be applied, in order. */
  function Pending(names: seq<string>, done: set<string>): seq<string> {
    if names == [] then []
    else (if names[0] in done then [] else [names[0]]) + Pending(names[1..], done)
  }

  predicate Distinct(names: seq<string>) {
    forall i, j :: 0 <= i < j < |names| ==> names[i] != names[j]
  }

  // ---------------------------------------------------------------- the invariant

  /** Only the lock holder is past the lock. */
  predicate PastLock(pc: Pc) {
    pc.Locked? || pc.Looping? || pc.InTx? || pc.Unlocking?
  }

  /** A replica in the loop has dealt with every name before its position, and has read only what is recorded. */
  ghost predicate LoopInv(names: seq<string>, s: State, pc: Pc)
    requires pc.Looping? || pc.InTx?
  {
    pc.i <= |names| && (forall j :: 0 <= j < pc.i ==> names[j] in s.recorded) && pc.applied <= s.recorded &&
    (pc.InTx? ==> pc.i < |names| && names[pc.i] !in pc.applied)
  }

  /** What every run keeps, however the reads end. */
  ghost predicate Inv(names: seq<string>, before: set<string>, s: State) {
    s.recorded == before + (set n | n in s.effects) &&
    (forall r :: r in s.pcs && PastLock(s.pcs[r]) ==> s.lock == Some(r)) &&
    (forall r :: r in s.pcs && (s.pcs[r].Looping? || s.pcs[r].InTx?) ==> LoopInv(names, s, s.pcs[r])) &&
    (forall r :: r in s.pcs && (s.pcs[r] == Unlocking(true) || s.pcs[r] == Returned(true)) ==> AllRecorded(names, s))
  }

  predicate AllRecorded(names: seq<string>, s: State) {
    forall n :: n in names ==> n in s.recorded
  }

  /** What was read includes every file name that is recorded. */
  predicate Complete(names: seq<string>, s: State, seen: set<string>) {
    forall n :: n in names && n in s.recorded ==> n in seen
  }

  /** A replica in the loop knows of every recorded name that it has still to look at. */
  ghost predicate Informed(names: seq<string>, s: State, pc: Pc)
    requires pc.Looping? || pc.InTx?
  {
    forall j :: pc.i <= j < |names| && names[j] in s.recorded ==> names[j] in pc.applied
  }

  /** What runs keep whose reads are complete: each name has been applied once, in order. */
  ghost predicate Once(names: seq<string>, before: set<string>, s: State) {
    s.effects + Pending(names, s.recorded) == Pending(names, before) &&
    forall r :: r in s.pcs && (s.pcs[r].Looping? || s.pcs[r].InTx?) ==> Informed(names, s, s.pcs[r])
  }

  /** Recording the first name that is missing takes it off the front of what is pending. */
  lemma {:induction false} PendingStep(names: seq<string>, done: set<string>, i: nat)
    requires Distinct(names) && i < |names| && names[i] !in done
    requires forall j :: 0 <= j < i ==> names[j] in done
    ensures Pending(names, done) == [names[i]] + Pending(names, done + {names[i]})
  {
    if i == 0 {
      PendingIgnores(names[1..], done, names[0]);
    } else {
      assert names[1..][i - 1] == names[i];
      PendingStep(names[1..], done, i - 1);
    }
  }

  lemma {:induction false} PendingIgnores(names: seq<string>, done: set<string>, n: string)
    requires n !in names
    ensures Pending(names, done + {n}) == Pending(names, done)
  {
    if names != [] { PendingIgnores(names[1..], done, n); }
  }

  lemma {:induction false} NothingPending(names: seq<string>, done: set<string>)
    ensures Pending(names, done) == [] <==> forall n :: n in names ==> n in done
  {
    if names != [] {
      NothingPending(names[1..], done);
      assert forall n :: n in names <==> n == names[0] || n in names[1..];
    }
  }

  /** May replica r stand here, as far as the invariant goes? */
  ghost predicate MayStand(names: seq<string>, s: State, r: nat, pc: Pc) {
    (PastLock(pc) ==> s.lock == Some(r)) && (pc.Looping? || pc.InTx? ==> LoopInv(names, s, pc)) &&
    (pc == Unlocking(true) || pc == Returned(true) ==> AllRecorded(names, s))
  }

  /** A step that only moves a replica to where it may stand keeps the invariant. */
  lemma MoveKeepsInv(names: seq<string>, before: set<string>, s: State, r: nat, pc: Pc)
    requires Inv(names, before, s) && MayStand(names, s, r, pc)
    ensures Inv(names, before, Goto(s, r, pc))
  {
    hide LoopInv, AllRecorded;
    var s' := Goto(s, r, pc);
    SameRecorded(names, s, s');
  }

  lemma SameRecorded(names: seq<string>, s: State, s': State)
    requires s.recorded <= s'.recorded
    ensures AllRecorded(names, s) ==> AllRecorded(names, s')
    ensures forall pc: Pc :: (pc.Looping? || pc.InTx?) && LoopInv(names, s, pc) ==> LoopInv(names, s', pc)
  {}

  /** Taking the free lock, giving it up, and crashing: no other replica is past the lock. */
  lemma LockKeepsInv(names: seq<string>, before: set<string>, s: State, e: Event)
    requires Inv(names, before, s) && Enabled(names, s, e) && (e.Acquire? || e.Unlock? || e.Crash?)
    ensures Inv(names, before, Next(names, s, e))
  {
    hide LoopInv, AllRecorded;
    SameRecorded(names, s, Next(names, s, e));
  }

  lemma CommitKeepsInv(names: seq<string>, before: set<string>, s: State, r: nat)
    requires Inv(names, before, s) && Enabled(names, s, Commit(r))
    ensures Inv(names, before, Next(names, s, Commit(r)))
  {
    var s' := Next(names, s, Commit(r));
    assert LoopInv(names, s, s.pcs[r]) && LoopInv(names, s', s'.pcs[r]);
    hide LoopInv, AllRecorded;
    SameRecorded(names, s, s');
  }

  /** Every step of every replica, whatever its reads return, keeps the lock, the record and the loops in order. */
  lemma {:induction false} StepKeepsInv(names: seq<string>, before: set<string>, s: State, e: Event)
    requires Inv(names, before, s) && Enabled(names, s, e)
    ensures Inv(names, before, Next(names, s, e))
  {
    if e.Commit? {
      CommitKeepsInv(names, before, s, e.r);
    } else if e.Acquire? || e.Unlock? || e.Crash? {
      LockKeepsInv(names, before, s, e);
    } else {
      MoveKeepsInv(names, before, s, e.r, Next(names, s, e).pcs[e.r]);
    }
  }

  /** A commit of a name that is not recorded yet, by a replica that has dealt with those before it. */
  lemma {:induction false} CommitAppliesNext(names: seq<string>, before: set<string>, s: State, r: nat)
    requires Distinct(names) && Inv(names, before, s) && Enabled(names, s, Commit(r))
    requires s.effects + Pending(names, s.recorded) == Pending(names, before) && names[s.pcs[r].i] !in s.recorded
    ensures var s' := Next(names, s, Commit(r)); s'.effects + Pending(names, s'.recorded) == Pending(names, before)
  {
    var i := s.pcs[r].i;
    var n, s' := names[i], Next(names, s, Commit(r));
    assert LoopInv(names, s, s.pcs[r]);
    assert s'.recorded == s.recorded + {n} && s'.effects == s.effects + [n];
    assert forall j :: 0 <= j < i ==> names[j] in s.recorded;
    hide *;
    PendingStep(names, s.recorded, i);
    assert s'.effects + Pending(names, s'.recorded) == s.effects + ([n] + Pending(names, s'.recorded));
  }

  lemma CommitKeepsOnce(names: seq<string>, before: set<string>, s: State, r: nat)
    requires Distinct(names) && Inv(names, before, s) && Once(names, before, s) && Enabled(names, s, Commit(r))
    ensures Once(names, before, Next(names, s, Commit(r)))
  {
    var s', pc := Next(names, s, Commit(r)), s.pcs[r];
    assert LoopInv(names, s, pc) && Informed(names, s, pc);
    CommitAppliesNext(names, before, s, r);
    hide Pending;
    assert Informed(names, s', s'.pcs[r]) by { assert forall j :: pc.i < j < |names| ==> names[j] != names[pc.i]; }
    hide Distinct, LoopInv, Informed;
    forall q | q in s'.pcs && (s'.pcs[q].Looping? || s'.pcs[q].InTx?) ensures q == r { assert PastLock(s'.pcs[q]); }
  }

  lemma MoveKeepsOnce(names: seq<string>, before: set<string>, s: State, e: Event)
    requires Once(names, before, s) && Enabled(names, s, e) && !e.Commit?
    requires e.Read? ==> Complete(names, s, e.seen)
    ensures Once(names, before, Next(names, s, e))
  {
    hide Pending;
    var s' := Next(names, s, e);
    assert s'.recorded == s.recorded && s'.effects == s.effects;
    if e.Read? { assert Informed(names, s', s'.pcs[e.r]); }
  }

  /** Every step keeps each name applied once and in order, if what is read is complete. */
  lemma {:induction false} StepKeepsOnce(names: seq<string>, before: set<string>, s: State, e: Event)
    requires Distinct(names) && Inv(names, before, s) && Once(names, before, s) && Enabled(names, s, e)
    requires e.Read? ==> Complete(names, s, e.seen)
    ensures Once(names, before, Next(names, s, e))
  {
    hide *;
    if e.Commit? { CommitKeepsOnce(names, before, s, e.r); } else { MoveKeepsOnce(names, before, s, e); }
  }

  // ---------------------------------------------------------------- runs

  datatype Run = Run(states: seq<State>, events: seq<Event>)

  /** Any interleaving, from any set of names already recorded; effects are counted from there on. */
  ghost predicate IsRun(names: seq<string>, before: set<string>, run: Run) {
    |run.states| == |run.events| + 1 &&
    run.states[0] == State(before, [], None, map[]) &&
    forall i :: 0 <= i < |run.events| ==> StepAt(names, run, i)
  }

  ghost predicate StepAt(names: seq<string>, run: Run, i: nat)
    requires i < |run.events| < |run.states|
  {
    Enabled(names, run.states[i], run.events[i]) && run.states[i + 1] == Next(names, run.states[i], run.events[i])
  }

  /** No read in the first n steps misses a recorded file name. */
  ghost predicate CompleteReads(names: seq<string>, run: Run, n: nat)
    requires n <= |run.events| < |run.states|
  {
    forall i :: 0 <= i < n && run.events[i].Read? ==> Complete(names, run.states[i], run.events[i].seen)
  }

  lemma {:induction false} InvHolds(names: seq<string>, before: set<string>, run: Run, i: nat)
    requires IsRun(names, before, run) && i <= |run.events|
    ensures Inv(names, before, run.states[i])
  {
    if i > 0 {
      hide Inv, Enabled, Next;
      InvHolds(names, before, run, i - 1);
      assert StepAt(names, run, i - 1);
      StepKeepsInv(names, before, run.states[i - 1], run.events[i - 1]);
    }
  }

  lemma {:induction false} OnceHolds(names: seq<string>, before: set<string>, run: Run, i: nat)
    requires Distinct(names) && IsRun(names, before, run) && i <= |run.events| && CompleteReads(names, run, i)
    ensures Once(names, before, run.states[i])
  {
    if i == 0 {
      assert [] + Pending(names, before) == Pending(names, before);
    } else {
      hide Inv, Enabled, Next, Once, Complete;
      InvHolds(names, before, run, i - 1);
      OnceHolds(names, before, run, i - 1);
      assert StepAt(names, run, i - 1);
      StepKeepsOnce(names, before, run.states[i - 1], run.events[i - 1]);
    }
  }

  /**
   Exactly once, in order. At every point of a run whose reads have been complete the committed effects
   are a prefix of the names that were not recorded at the start, in file order.
   */
  lemma {:induction false} EachMigrationOnceInOrder(names: seq<string>, before: set<string>, run: Run, i: nat)
    requires Distinct(names) && IsRun(names, before, run) && i <= |run.events| && CompleteReads(names, run, i)
    ensures run.states[i].effects <= Pending(names, before)
    ensures AllRecorded(names, run.states[i]) ==> run.states[i].effects == Pending(names, before)
  {
    var s := run.states[i];
    OnceHolds(names, before, run, i);
    NothingPending(names, s.recorded);
    assert s.effects + Pending(names, s.recorded) == Pending(names, before);
    if AllRecorded(names, s) { assert s.effects + [] == s.effects; }
  }

  /**
   However the reads end, what is recorded is just what was recorded before plus what has been applied,
   and once some replica has returned success every name is recorded.
   */
  lemma {:induction false} SuccessMeansAllRecorded(names: seq<string>, before: set<string>, run: Run, i: nat)
    requires IsRun(names, before, run) && i <= |run.events|
    ensures var s := run.states[i];
            s.recorded == before + (set n | n in s.effects) &&
            ((exists r :: At(s, r, Returned(true))) ==> AllRecorded(names, s))
  {
    InvHolds(names, before, run, i);
  }

  lemma {:induction false} NothingRecorded(names: seq<string>)
    ensures Pending(names, {}) == names
  {
    if names != [] { NothingRecorded(names[1..]); }
  }

  /** On a new database: the applied migrations are always a prefix of the sorted names, each applied once. */
  lemma {:induction false} AppliedIsPrefix(names: seq<string>, run: Run, i: nat)
    requires Distinct(names) && IsRun(names, {}, run) && i <= |run.events| && CompleteReads(names, run, i)
    ensures run.states[i].effects <= names
    ensures run.states[i].recorded == set n | n in run.states[i].effects
  {
    EachMigrationOnceInOrder(names, {}, run, i);
    SuccessMeansAllRecorded(names, {}, run, i);
    NothingRecorded(names);
  }

  /** No two replicas are ever past the lock at once. */
  lemma {:induction false} OneAtATime(names: seq<string>, before: set<string>, run: Run, i: nat, r: nat, q: nat)
    requires IsRun(names, before, run) && i <= |run.events|
    requires r in run.states[i].pcs && q in run.states[i].pcs
    requires PastLock(run.states[i].pcs[r]) && PastLock(run.states[i].pcs[q])
    ensures r == q
  {
    InvHolds(names, before, run, i);
  }

  // ---------------------------------------------------------------- a read that is cut short

  function Last(run: Run): State
    requires run.states != []
  {
    run.states[|run.states| - 1]
  }

  /** The run with one more step. */
  ghost function Extend(names: seq<string>, before: set<string>, run: Run, e: Event): (run': Run)
    requires IsRun(names, before, run) && Enabled(names, Last(run), e)
    ensures IsRun(names, before, run') && Last(run') == Next(names, Last(run), e)
    ensures run'.events == run.events + [e] && run.states <= run'.states
  {
    var run' := Run(run.states + [Next(names, Last(run), e)], run.events + [e]);
    assert forall i :: 0 <= i < |run.events| ==> StepAt(names, run, i) && StepAt(names, run', i);
    run'
  }

  /** The run goes on from another one, without any more reads. */
  ghost predicate GoesOn(run: Run, run': Run) {
    run.events <= run'.events && run.states <= run'.states &&
    forall i :: |run.events| <= i < |run'.events| ==> !run'.events[i].Read?
  }

  /** The replica applies the migration at its position, which it does not know to be recorded. */
  lemma ApplyOne(names: seq<string>, before: set<string>, run: Run, r: nat) returns (run': Run)
    requires IsRun(names, before, run) && r in Last(run).pcs && Last(run).pcs[r].Looping?
    requires Last(run).pcs[r].i < |names| && names[Last(run).pcs[r].i] !in Last(run).pcs[r].applied
    ensures IsRun(names, before, run') && GoesOn(run, run')
    ensures var s, s' := Last(run), Last(run');
            var n := names[s.pcs[r].i];
            s' == State(s.recorded + {n}, s.effects + [n], s.lock, s.pcs[r := Looping(s.pcs[r].applied, s.pcs[r].i + 1)])
    ensures Distinct(names) && Last(run).effects + Pending(names, Last(run).recorded) == Pending(names, before) &&
            names[Last(run).pcs[r].i] !in Last(run).recorded ==>
              Last(run').effects + Pending(names, Last(run').recorded) == Pending(names, before)
  {
    hide Pending, Distinct;
    var run1 := Extend(names, before, run, Begin(r));
    var run2 := Extend(names, before, run1, Exec(r));
    run' := Extend(names, before, run2, Commit(r));
    InvHolds(names, before, run2, |run2.events|);
    hide IsRun, Inv;
    if Distinct(names) && Last(run).effects + Pending(names, Last(run).recorded) == Pending(names, before) &&
      names[Last(run).pcs[r].i] !in Last(run).recorded { CommitAppliesNext(names, before, Last(run2), r); }
  }

  /** Until position m the loop meets only names that were read or that are not recorded, and applies the latter in order. */
  lemma {:induction false} LoopReaches(names: seq<string>, before: set<string>, run: Run, r: nat, seen: set<string>, i: nat, m: nat)
    returns (run': Run)
    requires Distinct(names) && IsRun(names, before, run) && At(Last(run), r, Looping(seen, i)) && i <= m < |names|
    requires Last(run).effects + Pending(names, Last(run).recorded) == Pending(names, before)
    requires forall j :: i <= j < m ==> names[j] in seen || names[j] !in Last(run).recorded
    ensures IsRun(names, before, run') && GoesOn(run, run') && At(Last(run'), r, Looping(seen, m))
    ensures Last(run').effects + Pending(names, Last(run').recorded) == Pending(names, before)
    ensures Last(run).recorded <= Last(run').recorded
    decreases m - i
  {
    hide Pending, IsRun;
    if i == m {
      run' := run;
    } else if names[i] in seen {
      var run1 := Extend(names, before, run, Skip(r));
      run' := LoopReaches(names, before, run1, r, seen, i + 1, m);
    } else {
      var run1 := ApplyOne(names, before, run, r);
      run' := LoopReaches(names, before, run1, r, seen, i + 1, m);
    }
  }

  /** The first file name that is recorded and was not read. */
  lemma {:induction false} FirstMissed(names: seq<string>, s: State, seen: set<string>, i: nat) returns (m: nat)
    requires i <= |names| && exists j :: i <= j < |names| && names[j] in s.recorded && names[j] !in seen
    ensures i <= m < |names| && names[m] in s.recorded && names[m] !in seen
    ensures forall j :: i <= j < m ==> names[j] in seen || names[j] !in s.recorded
    decreases |names| - i
  {
    if names[i] in s.recorded && names[i] !in seen { m := i; } else { m := FirstMissed(names, s, seen, i + 1); }
  }

  /** After a read that misses a recorded file name the replica can go on to apply that migration again. */
  lemma {:induction false} CutReadAppliesAgain(names: seq<string>, before: set<string>, run: Run, r: nat, seen: set<string>)
    returns (run': Run)
    requires Distinct(names) && IsRun(names, before, run) && CompleteReads(names, run, |run.events|)
    requires Enabled(names, Last(run), Read(r, seen)) && !Complete(names, Last(run), seen)
    ensures IsRun(names, before, run') && GoesOn(Extend(names, before, run, Read(r, seen)), run')
    ensures !(Last(run').effects <= Pending(names, before))
  {
    var s := Last(run);
    OnceHolds(names, before, run, |run.events|);
    hide Pending, IsRun;
    var n :| n in names && n in s.recorded && n !in seen;
    var m := FirstMissed(names, s, seen, 0);
    var run1 := Extend(names, before, run, Read(r, seen));
    var run2 := LoopReaches(names, before, run1, r, seen, 0, m);
    run' := ApplyOne(names, before, run2, r);
    var t := Last(run2);
    NothingAgain(names, before, t, names[m]);
  }

  lemma NothingAgain(names: seq<string>, before: set<string>, s: State, n: string)
    requires s.effects + Pending(names, s.recorded) == Pending(names, before) && n in s.recorded
    ensures !(s.effects + [n] <= Pending(names, before))
  {
    var p, all := Pending(names, s.recorded), Pending(names, before);
    PendingIsMissing(names, s.recorded);
    if p != [] {
      assert all[|s.effects|] == p[0] && p[0] in p;
      assert (s.effects + [n])[|s.effects|] == n;
    }
  }

  lemma {:induction false} PendingIsMissing(names: seq<string>, done: set<string>)
    ensures forall n :: n in Pending(names, done) ==> n !in done
  {
    if names != [] { PendingIsMissing(names[1..], done); }
  }

  /**
   Exactly when a read does no harm: the migrations are applied once and in order however the run goes on
   without further reads if and only if the read did not miss a recorded file name.
   */
  lemma {:induction false} ReadIsSafeIffComplete(names: seq<string>, before: set<string>, run: Run, r: nat, seen: set<string>)
    requires Distinct(names) && IsRun(names, before, run) && CompleteReads(names, run, |run.events|)
    requires Enabled(names, Last(run), Read(r, seen))
    ensures Complete(names, Last(run), seen) <==>
            forall run' :: IsRun(names, before, run') && GoesOn(Extend(names, before, run, Read(r, seen)), run') ==>
              Last(run').effects <= Pending(names, before)
  {
    var run1 := Extend(names, before, run, Read(r, seen));
    if Complete(names, Last(run), seen) {
      forall run' | IsRun(names, before, run') && GoesOn(run1, run') ensures Last(run').effects <= Pending(names, before) {
        ReadsStayComplete(names, before, run, run', r, seen);
        EachMigrationOnceInOrder(names, before, run', |run'.events|);
      }
    } else {
      var run' := CutReadAppliesAgain(names, before, run, r, seen);
    }
  }

  lemma ReadsStayComplete(names: seq<string>, before: set<string>, run: Run, run': Run, r: nat, seen: set<string>)
    requires IsRun(names, before, run) && IsRun(names, before, run') && CompleteReads(names, run, |run.events|)
    requires Enabled(names, Last(run), Read(r, seen)) && Complete(names, Last(run), seen)
    requires GoesOn(Extend(names, before, run, Read(r, seen)), run')
    ensures CompleteReads(names, run', |run'.events|)
  {
    hide Complete, Enabled, Next, StepAt;
    var run1 := Extend(names, before, run, Read(r, seen));
    var n := |run.events|;
    forall i | 0 <= i < |run'.events| && run'.events[i].Read? ensures Complete(names, run'.states[i], run'.events[i].seen) {
      assert i <= n && run'.events[i] == run1.events[i] && run'.states[i] == run1.states[i] == run.states[i];
    }
  }

  /** Two replicas, one file, and the second one's read cut short: the migration is applied twice, and both return success. */
  lemma {:induction false} CutReadAppliesTwice(n: string) returns (run: Run)
    ensures IsRun([n], {}, run) && Last(run).effects == [n, n]
    ensures At(Last(run), 1, Returned(true)) && At(Last(run), 2, Returned(true))
  {
    run := Run([State({}, [], None, map[])], []);
    run := WholeCall([n], run, 1, {});
    run := WholeCall([n], run, 2, {});
  }

  /** One replica from start to end, with a single file that it takes for missing. */
  lemma WholeCall(names: seq<string>, run: Run, r: nat, seen: set<string>) returns (run': Run)
    requires IsRun(names, {}, run) && |names| == 1 && r !in Last(run).pcs && Last(run).lock.None?
    requires seen <= Last(run).recorded && names[0] !in seen
    ensures IsRun(names, {}, run')
    ensures var s := Last(run);
            Last(run') == State(s.recorded + {names[0]}, s.effects + [names[0]], None, s.pcs[r := Returned(true)])
  {
    hide IsRun;
    run' := Extend(names, {}, run, Arrive(r));
    run' := Extend(names, {}, run', Acquire(r));
    run' := Extend(names, {}, run', Read(r, seen));
    run' := ApplyOne(names, {}, run', r);
    run' := Extend(names, {}, run', Finish(r));
    run' := Extend(names, {}, run', Unlock(r));
  }

  // ---------------------------------------------------------------- a replica on its own

  function ActorOf(e: Event): nat {
    e.r
  }

  /** What a replica does next is settled, but for what a read returns, a failure and a crash. */
  lemma {:induction false} NextStepIsSettled(names: seq<string>, s: State, e: Event, e': Event)
    requires Enabled(names, s, e) && Enabled(names, s, e') && ActorOf(e) == ActorOf(e')
    requires !e.Crash? && !e.Fail? && !e'.Crash? && !e'.Fail?
    ensures e == e' || (e.Read? && e'.Read?)
  {}

  /** A replica may crash at any point, and fail at any point behind the lock: nothing is recorded or applied by that, and the lock is given up. */
  lemma {:induction false} BreaksOff(names: seq<string>, before: set<string>, run: Run, r: nat)
    requires IsRun(names, before, run) && r in Last(run).pcs
    ensures var s := Last(run);
            Enabled(names, s, Crash(r)) && Next(names, s, Crash(r)).recorded == s.recorded && Next(names, s, Crash(r)).effects == s.effects &&
            r !in Next(names, s, Crash(r)).pcs && Next(names, s, Crash(r)).lock != Some(r) &&
            (s.lock != Some(r) ==> Next(names, s, Crash(r)).lock == s.lock)
    ensures var s := Last(run);
            PastLock(s.pcs[r]) && !s.pcs[r].Unlocking? ==>
              Enabled(names, s, Fail(r)) && Next(names, s, Fail(r)) == s.(pcs := s.pcs[r := Unlocking(false)]) &&
              Next(names, Next(names, s, Fail(r)), Unlock(r)) == State(s.recorded, s.effects, None, s.pcs[r := Returned(false)])
  {
    var s := Last(run);
    if PastLock(s.pcs[r]) && !s.pcs[r].Unlocking? {
      assert s.pcs[r := Unlocking(false)][r := Returned(false)] == s.pcs[r := Returned(false)];
    }
  }

  /** The loop, from where a replica is in it to its end, when no other replica does anything. */
  lemma {:induction false} LoopAlone(names: seq<string>, before: set<string>, run: Run, r: nat) returns (run': Run)
    requires IsRun(names, before, run) && r in Last(run).pcs && Last(run).pcs[r].Looping? && Last(run).pcs[r].i <= |names|
    ensures IsRun(names, before, run') && run.states <= run'.states
    ensures var s, s' := Last(run), Last(run');
            var rest, applied := names[s.pcs[r].i..], s.pcs[r].applied;
            s' == State(s.recorded + (set n | n in rest && n !in applied), s.effects + Pending(rest, applied), s.lock, s.pcs[r := Unlocking(true)])
    decreases |names| - Last(run).pcs[r].i
  {
    hide *;
    HasStates(names, before, run);
    var s := Last(run);
    var i, applied := s.pcs[r].i, s.pcs[r].applied;
    if i == |names| {
      run' := FinishAlone(names, before, run, r);
    } else {
      var run1 := OneName(names, before, run, r);
      run' := LoopAlone(names, before, run1, r);
      HasStates(names, before, run');
      Rest(names, i, applied);
      RestOfState(s, r, if names[i] in applied then [] else [names[i]], Pending(names[i + 1..], applied), i + 1, applied,
                  if names[i] in applied then {} else {names[i]}, set n | n in names[i + 1..] && n !in applied);
    }
  }

  lemma HasStates(names: seq<string>, before: set<string>, run: Run)
    requires IsRun(names, before, run)
    ensures run.states != []
  {}

  lemma RestOfState(s: State, r: nat, a: seq<string>, b: seq<string>, i: nat, applied: set<string>, m: set<string>, n: set<string>)
    ensures State(s.recorded + m + n, s.effects + a + b, s.lock, s.pcs[r := Looping(applied, i)][r := Unlocking(true)]) ==
            State(s.recorded + (m + n), s.effects + (a + b), s.lock, s.pcs[r := Unlocking(true)])
  {
    assert s.effects + a + b == s.effects + (a + b) && s.recorded + m + n == s.recorded + (m + n);
    assert s.pcs[r := Looping(applied, i)][r := Unlocking(true)] == s.pcs[r := Unlocking(true)];
  }

  lemma FinishAlone(names: seq<string>, before: set<string>, run: Run, r: nat) returns (run': Run)
    requires IsRun(names, before, run) && r in Last(run).pcs && Last(run).pcs[r].Looping? && Last(run).pcs[r].i == |names|
    ensures IsRun(names, before, run') && run.states <= run'.states
    ensures var s, s' := Last(run), Last(run');
            var rest, applied := names[s.pcs[r].i..], s.pcs[r].applied;
            s' == State(s.recorded + (set n | n in rest && n !in applied), s.effects + Pending(rest, applied), s.lock, s.pcs[r := Unlocking(true)])
  {
    run' := Extend(names, before, run, Finish(r));
    assert names[|names|..] == [];
  }

  /** One round of the loop. */
  lemma OneName(names: seq<string>, before: set<string>, run: Run, r: nat) returns (run': Run)
    requires IsRun(names, before, run) && r in Last(run).pcs && Last(run).pcs[r].Looping? && Last(run).pcs[r].i < |names|
    ensures IsRun(names, before, run') && run.states <= run'.states
    ensures var s, n, known := Last(run), names[Last(run).pcs[r].i], names[Last(run).pcs[r].i] in Last(run).pcs[r].applied;
            Last(run') == State(s.recorded + (if known then {} else {n}), s.effects + (if known then [] else [n]), s.lock,
                                s.pcs[r := Looping(s.pcs[r].applied, s.pcs[r].i + 1)])
  {
    if names[Last(run).pcs[r].i] in Last(run).pcs[r].applied {
      run' := Extend(names, before, run, Skip(r));
      assert Last(run).recorded + {} == Last(run).recorded && Last(run).effects + [] == Last(run).effects;
    } else {
      hide IsRun, Pending;
      run' := ApplyOne(names, before, run, r);
    }
  }

  lemma Rest(names: seq<string>, i: nat, applied: set<string>)
    requires i < |names|
    ensures Pending(names[i..], applied) == (if names[i] in applied then [] else [names[i]]) + Pending(names[i + 1..], applied)
    ensures (set n | n in names[i..] && n !in applied) ==
            (if names[i] in applied then {} else {names[i]}) + (set n | n in names[i + 1..] && n !in applied)
  {
    assert names[i..][1..] == names[i + 1..] && names[i..] == [names[i]] + names[i + 1..];
  }

  /** A replica that finds the lock free and is left alone applies what is pending, in order, records it and returns success. */
  lemma {:induction false} MigratesAlone(names: seq<string>, before: set<string>, run: Run, r: nat) returns (run': Run)
    requires IsRun(names, before, run) && r !in Last(run).pcs && Last(run).lock.None?
    ensures IsRun(names, before, run') && run.states <= run'.states
    ensures var s := Last(run);
            Last(run') == State(s.recorded + (set n | n in names), s.effects + Pending(names, s.recorded), None, s.pcs[r := Returned(true)])
  {
    HasStates(names, before, run);
    hide IsRun, Pending;
    var s := Last(run);
    var run1 := Extend(names, before, run, Arrive(r));
    var run2 := Extend(names, before, run1, Acquire(r));
    var run3 := Extend(names, before, run2, Read(r, s.recorded));
    var run4 := LoopAlone(names, before, run3, r);
    run' := Extend(names, before, run4, Unlock(r));
    assert names[0..] == names;
    assert s.recorded + (set n | n in names && n !in s.recorded) == s.recorded + (set n | n in names);
    assert s.pcs[r := Waiting][r := Locked][r := Looping(s.recorded, 0)][r := Unlocking(true)][r := Returned(true)] == s.pcs[r := Returned(true)];
  }
}

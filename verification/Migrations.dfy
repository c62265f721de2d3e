/**
 Schema migration at start-up: any number of processes, a session advisory lock, one transaction per migration,
 and crashes or failures at any step.
*/
module Migrations {
  import opened Common

  type Version = int
  type Pid = int

  /** `pending_migrations`: the versions not yet applied, in order. */
  function PendingMigrations(migrations: seq<Version>, applied: set<Version>): (pending: seq<Version>)
    ensures forall v :: v in pending <==> v in migrations && v !in applied
    ensures NoDuplicates(migrations) ==> NoDuplicates(pending)
  {
    if |migrations| == 0 then [] else
      (if migrations[0] in applied then [] else [migrations[0]]) + PendingMigrations(migrations[1..], applied)
  }

  /** Where a process is in `init_schema`; the last three are final. */
  datatype Phase =
    | Connecting
    | Waiting
    | Locked
    | TableReady
    | Applying(todo: seq<Version>)
    | InTransaction(todo: seq<Version>)
    | Unlocking(completed: bool)
    | Returned
    | Raised
    | Crashed

  /** The processes, the holder of the advisory lock, and the committed migrations in commit order. */
  datatype System = System(procs: map<Pid, Phase>, lock: Option<Pid>, log: seq<Version>)

  function Elements(vs: seq<Version>): set<Version> {
    set v | v in vs
  }

  function Committed(s: System): set<Version> {
    Elements(s.log)
  }

  predicate Inside(phase: Phase) {
    phase.Locked? || phase.TableReady? || phase.Applying? || phase.InTransaction? || phase.Unlocking?
  }

  predicate Final(phase: Phase) {
    phase.Returned? || phase.Raised? || phase.Crashed?
  }

  datatype Action = Start | Connect | Acquire | CreateTable | ReadApplied | Begin | Commit | Finish | Fail | Unlock
    | Crash

  /** One step of process p. The primary key of the version table refuses a version that is already there. */
  predicate Step(migrations: seq<Version>, s: System, p: Pid, action: Action, t: System) {
    if action.Start? then p !in s.procs && t == s.(procs := s.procs[p := Connecting])
    else p in s.procs && var phase := s.procs[p];
      match action
      case Connect => phase.Connecting? && t == s.(procs := s.procs[p := Waiting])
      case Acquire => phase.Waiting? && s.lock.None? && t == s.(procs := s.procs[p := Locked], lock := Some(p))
      case CreateTable => phase.Locked? && t == s.(procs := s.procs[p := TableReady])
      case ReadApplied => phase.TableReady?
        && t == s.(procs := s.procs[p := Applying(PendingMigrations(migrations, Committed(s)))])
      case Begin => phase.Applying? && |phase.todo| > 0 && t == s.(procs := s.procs[p := InTransaction(phase.todo)])
      case Commit => phase.InTransaction? && |phase.todo| > 0 && phase.todo[0] !in s.log
                     && t == s.(procs := s.procs[p := Applying(phase.todo[1..])], log := s.log + [phase.todo[0]])
      case Finish => phase.Applying? && phase.todo == [] && t == s.(procs := s.procs[p := Unlocking(true)])
      case Fail => Inside(phase) && !phase.Unlocking? && t == s.(procs := s.procs[p := Unlocking(false)])
      case Unlock => phase.Unlocking?
        && t == s.(procs := s.procs[p := if phase.completed then Returned else Raised], lock := None)
      case Crash =>
        !Final(phase) && t == s.(procs := s.procs[p := Crashed], lock := if s.lock == Some(p) then None else s.lock)
  }

  ghost predicate Next(migrations: seq<Version>, s: System, t: System) {
    exists p, action :: Step(migrations, s, p, action, t)
  }

  ghost predicate Run(migrations: seq<Version>, log: seq<Version>, run: seq<System>) {
    && |run| > 0 && run[0] == System(map[], None, log)
    && forall i | 0 <= i < |run| - 1 :: Next(migrations, run[i], run[i + 1])
  }

  // ---- The invariant ----

  /** The lock holder's list is exactly what is still missing. */
  ghost predicate ListExact(migrations: seq<Version>, s: System, p: Pid)
    requires p in s.procs
  {
    match s.procs[p]
    case Applying(todo) => todo == PendingMigrations(migrations, Committed(s))
    case InTransaction(todo) => |todo| > 0 && todo == PendingMigrations(migrations, Committed(s))
    case Unlocking(completed) => completed ==> AllCommitted(migrations, s)
    case Returned => AllCommitted(migrations, s)
    case _ => true
  }

  ghost predicate AllCommitted(migrations: seq<Version>, s: System) {
    forall v | v in migrations :: v in s.log
  }

  ghost predicate Inv(migrations: seq<Version>, s: System) {
    && NoDuplicates(s.log)
    && (forall p | p in s.procs :: Inside(s.procs[p]) <==> s.lock == Some(p))
    && (s.lock.Some? ==> s.lock.value in s.procs)
    && (forall p | p in s.procs :: ListExact(migrations, s, p))
  }

  lemma {:induction false} PendingAfterCommit(migrations: seq<Version>, applied: set<Version>)
    requires NoDuplicates(migrations)
    ensures var pending := PendingMigrations(migrations, applied);
            |pending| > 0 ==> PendingMigrations(migrations, applied + {pending[0]}) == pending[1..]
  {
    if |migrations| > 0 {
      var first, rest := migrations[0], migrations[1..];
      if first in applied {
        PendingAfterCommit(rest, applied);
        var pending := PendingMigrations(rest, applied);
        assert PendingMigrations(migrations, applied) == [] + pending == pending;
        if |pending| > 0 {
          assert first in applied + {pending[0]};
          assert PendingMigrations(migrations, applied + {pending[0]}) ==
                 [] + PendingMigrations(rest, applied + {pending[0]});
        }
      } else {
        PendingUnaffected(rest, applied, first);
      }
    }
  }

  lemma {:induction false} PendingUnaffected(migrations: seq<Version>, applied: set<Version>, v: Version)
    requires v !in migrations
    ensures PendingMigrations(migrations, applied + {v}) == PendingMigrations(migrations, applied)
  {
    if |migrations| > 0 { PendingUnaffected(migrations[1..], applied, v); }
  }

  lemma StepKeepsLists(migrations: seq<Version>, s: System, p: Pid, action: Action, t: System, q: Pid)
    requires NoDuplicates(migrations) && Inv(migrations, s) && Step(migrations, s, p, action, t) && q in t.procs
    ensures ListExact(migrations, t, q)
  {
    if action.Commit? {
      var todo := s.procs[p].todo;
      assert ListExact(migrations, s, p);
      PendingAfterCommit(migrations, Committed(s));
      assert Committed(t) == Committed(s) + {todo[0]};
    }
    hide PendingMigrations;
    if q != p { assert ListExact(migrations, s, q); } else if p in s.procs { assert ListExact(migrations, s, p); }
  }

  lemma StepKeepsLock(migrations: seq<Version>, s: System, p: Pid, action: Action, t: System)
    requires Inv(migrations, s) && Step(migrations, s, p, action, t)
    ensures forall q | q in t.procs :: Inside(t.procs[q]) <==> t.lock == Some(q)
    ensures t.lock.Some? ==> t.lock.value in t.procs
  {
    hide ListExact, PendingMigrations, NoDuplicates;
  }

  lemma StepGrowsLog(migrations: seq<Version>, s: System, p: Pid, action: Action, t: System)
    requires Inv(migrations, s) && Step(migrations, s, p, action, t)
    ensures NoDuplicates(t.log) && s.log <= t.log
  {
    hide ListExact, PendingMigrations, Inside;
  }

  lemma StepKeepsInv(migrations: seq<Version>, s: System, p: Pid, action: Action, t: System)
    requires NoDuplicates(migrations) && Inv(migrations, s) && Step(migrations, s, p, action, t)
    ensures Inv(migrations, t) && s.log <= t.log
  {
    forall q | q in t.procs ensures ListExact(migrations, t, q) { StepKeepsLists(migrations, s, p, action, t, q); }
    StepKeepsLock(migrations, s, p, action, t);
    StepGrowsLog(migrations, s, p, action, t);
    hide ListExact, Step, NoDuplicates, Inside;
  }

  lemma {:induction false} RunKeepsInv(migrations: seq<Version>, log: seq<Version>, run: seq<System>, i: nat)
    requires NoDuplicates(migrations) && NoDuplicates(log) && Run(migrations, log, run) && i < |run|
    ensures Inv(migrations, run[i]) && log <= run[i].log
  {
    if i > 0 {
      RunKeepsInv(migrations, log, run, i - 1);
      assert Next(migrations, run[i - 1], run[i]);
      var p, action :| Step(migrations, run[i - 1], p, action, run[i]);
      StepKeepsInv(migrations, run[i - 1], p, action, run[i]);
    }
  }

  // ---- What every run guarantees ----

  /**
   At every point of every run: one process at most is inside the lock, no migration has been committed twice, none
   committed before the run is lost, and a process that has returned normally left every migration committed.
  */
  lemma MigrationSafety(migrations: seq<Version>, log: seq<Version>, run: seq<System>, i: nat)
    requires NoDuplicates(migrations) && NoDuplicates(log) && Run(migrations, log, run) && i < |run|
    ensures forall p, q | p in run[i].procs && q in run[i].procs && Inside(run[i].procs[p])
            && Inside(run[i].procs[q]) :: p == q
    ensures NoDuplicates(run[i].log) && log <= run[i].log
    ensures forall p | p in run[i].procs && run[i].procs[p].Returned? :: AllCommitted(migrations, run[i])
    ensures forall p | p in run[i].procs && run[i].procs[p].InTransaction? ::
            |run[i].procs[p].todo| > 0 && run[i].procs[p].todo[0] !in run[i].log
  {
    RunKeepsInv(migrations, log, run, i);
    forall p | p in run[i].procs && run[i].procs[p].InTransaction?
      ensures |run[i].procs[p].todo| > 0 && run[i].procs[p].todo[0] !in run[i].log
    {
      assert ListExact(migrations, run[i], p);
      assert run[i].procs[p].todo[0] in run[i].procs[p].todo;
    }
    forall p | p in run[i].procs && run[i].procs[p].Returned? ensures AllCommitted(migrations, run[i]) {
      assert ListExact(migrations, run[i], p);
    }
  }

  lemma ElementsOfPrefix(migrations: seq<Version>, k: nat)
    requires 0 < k <= |migrations|
    ensures Elements(migrations[..k]) == Elements(migrations[1..][..k - 1]) + {migrations[0]}
    ensures migrations[0] in Elements(migrations[..k])
  {
    assert migrations[..k] == [migrations[0]] + migrations[1..][..k - 1];
  }

  lemma {:induction false} PendingOfNone(migrations: seq<Version>)
    ensures PendingMigrations(migrations, {}) == migrations
  {
    if |migrations| > 0 { PendingOfNone(migrations[1..]); }
  }

  lemma PendingAfterFirst(migrations: seq<Version>, applied: set<Version>)
    requires |migrations| > 0 && NoDuplicates(migrations)
    ensures PendingMigrations(migrations, applied + {migrations[0]}) == PendingMigrations(migrations[1..], applied)
  {
    PendingUnaffected(migrations[1..], applied, migrations[0]);
  }

  lemma {:induction false} PendingOfPrefix(migrations: seq<Version>, k: nat)
    requires NoDuplicates(migrations) && k <= |migrations|
    ensures PendingMigrations(migrations, Elements(migrations[..k])) == migrations[k..]
  {
    hide PendingMigrations;
    if k == 0 {
      PendingOfNone(migrations);
      assert Elements(migrations[..0]) == {};
    } else {
      var rest := migrations[1..];
      PendingOfPrefix(rest, k - 1);
      ElementsOfPrefix(migrations, k);
      hide Elements, NoDuplicates;
      PendingAfterFirst(migrations, Elements(rest[..k - 1]));
      assert rest[k - 1..] == migrations[k..];
    }
  }

  /** What is committed next is the first migration after the committed prefix. */
  lemma CommitExtends(migrations: seq<Version>, log: seq<Version>, todo: seq<Version>)
    requires NoDuplicates(migrations) && log <= migrations && |todo| > 0
    requires todo == PendingMigrations(migrations, Elements(log))
    ensures log + [todo[0]] <= migrations
  {
    var k := |log|;
    hide PendingMigrations, Elements, NoDuplicates;
    assert log == migrations[..k];
    PendingOfPrefix(migrations, k);
    assert todo[0] == migrations[k];
  }

  lemma StepKeepsPrefix(migrations: seq<Version>, s: System, p: Pid, action: Action, t: System)
    requires NoDuplicates(migrations) && Inv(migrations, s) && Step(migrations, s, p, action, t)
    requires s.log <= migrations
    ensures t.log <= migrations
  {
    if action.Commit? {
      var todo := s.procs[p].todo;
      assert ListExact(migrations, s, p);
      assert t.log == s.log + [todo[0]] && Committed(s) == Elements(s.log);
      hide *;
      CommitExtends(migrations, s.log, todo);
    } else {
      hide PendingMigrations, Inv;
      assert t.log == s.log;
    }
  }

  /** From a committed prefix of the list, migrations are committed in list order and the log stays a prefix. */
  lemma {:induction false} LogStaysPrefix(migrations: seq<Version>, log: seq<Version>, run: seq<System>, i: nat)
    requires NoDuplicates(migrations) && log <= migrations && Run(migrations, log, run) && i < |run|
    ensures run[i].log <= migrations
  {
    if i > 0 {
      LogStaysPrefix(migrations, log, run, i - 1);
      RunKeepsInv(migrations, log, run, i - 1);
      var s, t := run[i - 1], run[i];
      assert Next(migrations, s, t);
      var p, action :| Step(migrations, s, p, action, t);
      hide Inv, Step;
      StepKeepsPrefix(migrations, s, p, action, t);
    }
  }

  /** The protocol never jams: while some process is not finished, one can take a step of `init_schema` itself. */
  lemma NeverStuck(migrations: seq<Version>, log: seq<Version>, run: seq<System>, i: nat, p: Pid)
    requires NoDuplicates(migrations) && NoDuplicates(log) && Run(migrations, log, run) && i < |run|
    requires p in run[i].procs && !Final(run[i].procs[p])
    ensures exists q, action, t :: Step(migrations, run[i], q, action, t) && action !in {Start, Fail, Crash}
  {
    var s := run[i];
    RunKeepsInv(migrations, log, run, i);
    var q := if s.procs[p].Waiting? && s.lock.Some? then s.lock.value else p;
    assert ListExact(migrations, s, q);
    match s.procs[q] {
      case Connecting => assert Step(migrations, s, q, Connect, s.(procs := s.procs[q := Waiting]));
      case Waiting => assert Step(migrations, s, q, Acquire, s.(procs := s.procs[q := Locked], lock := Some(q)));
      case Locked => assert Step(migrations, s, q, CreateTable, s.(procs := s.procs[q := TableReady]));
      case TableReady =>
        assert Step(migrations, s, q, ReadApplied,
               s.(procs := s.procs[q := Applying(PendingMigrations(migrations, Committed(s)))]));
      case Applying(todo) =>
        if todo == [] {
          assert Step(migrations, s, q, Finish, s.(procs := s.procs[q := Unlocking(true)]));
        } else {
          assert Step(migrations, s, q, Begin, s.(procs := s.procs[q := InTransaction(todo)]));
        }
      case InTransaction(todo) =>
        assert todo[0] in todo;
        assert Step(migrations, s, q, Commit, s.(procs := s.procs[q := Applying(todo[1..])], log := s.log + [todo[0]]));
      case Unlocking(completed) =>
        assert Step(migrations, s, q, Unlock,
               s.(procs := s.procs[q := if completed then Returned else Raised], lock := None));
      case _ =>
    }
  }
}

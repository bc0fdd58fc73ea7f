/** The numbered migration runner, on top of transactions. */
module Migrations {
  import opened Selections
  import opened Text
  import opened Transactions

  /** A migration file; `complete` says that its text splits into complete statements. */
  datatype Migration = Migration(version: nat, name: string, complete: bool, statements: seq<string>)

  /**
   * What goes wrong during one run: the error of each statement (the one after the last is the record itself),
   * and of each BEGIN and COMMIT.
   */
  datatype Faults = Faults(
    statement: (nat, nat) -> Option<Error>, begin: nat -> Option<Error>, commit: nat -> Option<Error>)

  /** The statements of a migration from `i` on, then its record. */
  function BodyFrom(m: Migration, faults: Faults, i: nat): Program
    requires i <= |m.statements|
    decreases |m.statements| - i
  {
    var fault := faults.statement(m.version, i);
    var step := if fault.Some? then Raise(fault.value)
                else Write(if i < |m.statements| then Statement(m.statements[i]) else Record(m.version));
    if i == |m.statements| then step else Then(step, BodyFrom(m, faults, i + 1))
  }

  function MigrationBlock(m: Migration, faults: Faults): Program {
    Block(faults.begin(m.version), BodyFrom(m, faults, 0), faults.commit(m.version))
  }

  function Versions(log: Log): set<nat> {
    set e <- log | e.Record? :: e.version
  }

  function Unrecorded(recorded: set<nat>): Migration -> bool {
    (m: Migration) => m.version !in recorded
  }

  function Pending(ms: seq<Migration>, recorded: set<nat>): seq<Migration> {
    Filtered(ms, |ms|, Unrecorded(recorded))
  }

  predicate Ascending(ms: seq<Migration>) {
    forall i, j :: 0 <= i < j < |ms| ==> ms[i].version < ms[j].version
  }

  /** `newly` are unrecorded files in the order of their versions, and no unrecorded earlier file is skipped. */
  ghost predicate AppliesInOrder(ms: seq<Migration>, recorded: set<nat>, newly: seq<Migration>) {
    && Ascending(newly)
    && (forall m <- newly :: m in ms && m.version !in recorded)
    && (forall m <- newly, p <- ms :: p.version < m.version && p.version !in recorded ==> p in newly)
  }

  lemma {:induction false} PendingInOrder(ms: seq<Migration>, recorded: set<nat>, n: nat)
    requires Ascending(ms) && n <= |Pending(ms, recorded)|
    ensures AppliesInOrder(ms, recorded, Pending(ms, recorded)[..n])
  {
    FilteredInOrder(ms, Unrecorded(recorded), (m: Migration) => m.version, n);
  }

  method ApplyMigration(conn: Connection, m: Migration, faults: Faults) returns (error: Option<Error>)
    modifies conn
    ensures if !m.complete || m.statements == [] then conn.Now() == old(conn.Now()) && error.Some?
            else (conn.Now(), error) == Exec(MigrationBlock(m, faults), old(conn.Now()))
  {
    if !m.complete || m.statements == [] {
      return Some(Other("malformed migration"));
    }
    error := conn.Transaction(faults.begin(m.version), BodyFrom(m, faults, 0), faults.commit(m.version));
  }

  /** What a run leaves, and how many of the pending migrations it applied. */
  function RunFrom(pending: seq<Migration>, faults: Faults, s: State): (State, nat) {
    if pending == [] then (s, 0)
    else
      var m := pending[0];
      if !m.complete || m.statements == [] then (s, 0)
      else
        var (s1, error) := Exec(MigrationBlock(m, faults), s);
        if error.Some? then (s1, 0)
        else
          var (s2, n) := RunFrom(pending[1..], faults, s1);
          (s2, n + 1)
  }

  method RunMigrations(conn: Connection, ms: seq<Migration>, faults: Faults)
    returns (newlyApplied: seq<Migration>, failed: bool)
    modifies conn
    ensures var pending := Pending(ms, Versions(old(conn.working)));
            var (s, n) := RunFrom(pending, faults, old(conn.Now()));
            conn.Now() == s && n <= |pending| && newlyApplied == pending[..n] && (failed <==> n < |pending|)
    ensures Ascending(ms) ==> AppliesInOrder(ms, Versions(old(conn.working)), newlyApplied)
    ensures !failed ==> forall m <- ms :: m.version in Versions(old(conn.working)) || m in newlyApplied
  {
    var pending := Pending(ms, Versions(conn.working));
    ghost var start := conn.Now();
    newlyApplied := [];
    RunAppliesPrefix(pending, faults, start);
    forall n: nat | n <= |pending| && Ascending(ms) ensures AppliesInOrder(ms, Versions(conn.working), pending[..n]) {
      PendingInOrder(ms, Versions(conn.working), n);
    }
    forall m | m in ms ensures m.version in Versions(conn.working) || m in pending {
      PendingMembers(ms, Versions(conn.working), m);
    }
    var i := 0;
    while i < |pending|
      invariant 0 <= i <= |pending| && newlyApplied == pending[..i]
      invariant RunFrom(pending, faults, start).0 == RunFrom(pending[i..], faults, conn.Now()).0
      invariant RunFrom(pending, faults, start).1 == i + RunFrom(pending[i..], faults, conn.Now()).1
    {
      assert pending[i..][0] == pending[i] && pending[i..][1..] == pending[i + 1..];
      var error := ApplyMigration(conn, pending[i], faults);
      if error.Some? {
        return newlyApplied, true;
      }
      newlyApplied := newlyApplied + [pending[i]];
      i := i + 1;
    }
    failed := false;
  }

  lemma {:induction false} RunAppliesPrefix(pending: seq<Migration>, faults: Faults, s: State)
    ensures RunFrom(pending, faults, s).1 <= |pending|
  {
    if pending != [] {
      RunAppliesPrefix(pending[1..], faults, Exec(MigrationBlock(pending[0], faults), s).0);
    }
  }

  // ----- what the database holds -------------------------------------------

  function StatementsOf(sqls: seq<string>): (log: Log)
    ensures |log| == |sqls| && forall i :: 0 <= i < |log| ==> log[i] == Statement(sqls[i])
  {
    seq(|sqls|, i requires 0 <= i < |sqls| => Statement(sqls[i]))
  }

  /** A migration's whole effect. */
  function EffectOf(m: Migration): Log {
    StatementsOf(m.statements) + [Record(m.version)]
  }

  /** The effects of these migrations, one after the other. */
  function LogOf(done: seq<Migration>): Log {
    if done == [] then [] else LogOf(done[..|done| - 1]) + EffectOf(done[|done| - 1])
  }

  function VersionsOf(done: seq<Migration>): set<nat> {
    set m <- done :: m.version
  }

  predicate DistinctVersions(ms: seq<Migration>) {
    forall i, j :: 0 <= i < j < |ms| ==> ms[i].version != ms[j].version
  }

  /** The migration can be applied under these faults: it is well formed and nothing it does fails. */
  predicate Applies(m: Migration, faults: Faults) {
    && m.complete && m.statements != []
    && faults.begin(m.version).None?
    && forall i :: 0 <= i <= |m.statements| ==> faults.statement(m.version, i).None?
  }

  /** And its COMMIT goes through. */
  predicate Lands(m: Migration, faults: Faults) {
    Applies(m, faults) && faults.commit(m.version).None?
  }

  /** The longest prefix of migrations that all land. */
  function Landing(pending: seq<Migration>, faults: Faults): seq<Migration> {
    if pending == [] || !Lands(pending[0], faults) then [] else [pending[0]] + Landing(pending[1..], faults)
  }

  /** The first migration that does not land fails at its COMMIT. */
  predicate Sticks(pending: seq<Migration>, faults: Faults) {
    pending != [] && if Lands(pending[0], faults) then Sticks(pending[1..], faults) else Applies(pending[0], faults)
  }

  lemma {:induction false} VersionsOfLog(done: seq<Migration>)
    ensures Versions(LogOf(done)) == VersionsOf(done)
  {
    if done != [] {
      var init, m := done[..|done| - 1], done[|done| - 1];
      VersionsOfLog(init);
      var effect := EffectOf(m);
      assert Versions(effect) == {m.version} by {
        assert effect[|m.statements|] == Record(m.version);
      }
      assert Versions(LogOf(init) + effect) == Versions(LogOf(init)) + Versions(effect);
      assert done == init + [m];
      assert VersionsOf(done) == VersionsOf(init) + {m.version};
    }
  }

  /** The body runs as: some of its statements and an error, or all of them and the record. */
  lemma {:induction false} BodyRuns(m: Migration, faults: Faults, i: nat, log: Log)
    requires i <= |m.statements|
    ensures var ok := forall j :: i <= j <= |m.statements| ==> faults.statement(m.version, j).None?;
            && (Flat(BodyFrom(m, faults, i), log).1.None? <==> ok)
            && (ok ==> Flat(BodyFrom(m, faults, i), log).0 == log + EffectOf(m)[i..])
    decreases |m.statements| - i
  {
    var fault := faults.statement(m.version, i);
    if fault.None? {
      if i < |m.statements| {
        var next := log + [Statement(m.statements[i])];
        BodyRuns(m, faults, i + 1, next);
        assert next + EffectOf(m)[i + 1..] == log + EffectOf(m)[i..];
      } else {
        assert EffectOf(m)[i..] == [Record(m.version)];
      }
    }
  }

  /**
   * One migration takes effect completely or, when anything in it fails, not at all. Only when its COMMIT fails does
   * the connection stay inside the transaction.
   */
  lemma {:induction false} MigrationAllOrNothing(m: Migration, faults: Faults, s: State)
    requires IsIdle(s) && m.complete && m.statements != []
    ensures var (after, error) := Exec(MigrationBlock(m, faults), s);
            && (error.None? <==> Lands(m, faults))
            && after ==
               if Lands(m, faults) then State(s.committed + EffectOf(m), s.committed + EffectOf(m), false)
               else if Applies(m, faults) then State(s.committed, s.committed + EffectOf(m), true)
               else s
  {
    InsideIsFlat(BodyFrom(m, faults, 0), s.(inTransaction := true));
    BodyRuns(m, faults, 0, s.committed);
    assert EffectOf(m)[0..] == EffectOf(m);
  }

  lemma {:induction false} LogOfSnoc(done: seq<Migration>, m: Migration)
    ensures LogOf(done + [m]) == LogOf(done) + EffectOf(m)
  {
    assert (done + [m])[..|done|] == done;
  }

  /**
   * A run from an idle connection commits exactly the longest prefix of the pending migrations that all land, and
   * leaves the connection idle unless the next one failed at its COMMIT.
   */
  lemma {:induction false} RunCommitsLanding(pending: seq<Migration>, faults: Faults, done: seq<Migration>)
    ensures var (s, n) := RunFrom(pending, faults, State(LogOf(done), LogOf(done), false));
            var landed := Landing(pending, faults);
            && n == |landed| && landed <= pending
            && s.committed == LogOf(done + landed)
            && (IsIdle(s) <==> !Sticks(pending, faults)) && (s.inTransaction <==> Sticks(pending, faults))
  {
    if pending == [] || !Lands(pending[0], faults) {
      RunStops(pending, faults, done);
      assert done + [] == done;
    } else {
      var m, rest := pending[0], pending[1..];
      RunContinues(pending, faults, done);
      RunCommitsLanding(rest, faults, done + [m]);
      ConsPrefix(done, m, rest, Landing(rest, faults));
    }
  }

  lemma {:induction false} ConsPrefix(done: seq<Migration>, m: Migration, rest: seq<Migration>, applied: seq<Migration>)
    requires applied <= rest
    ensures [m] + applied <= [m] + rest && done + [m] + applied == done + ([m] + applied)
  {
  }

  lemma {:induction false} RunStops(pending: seq<Migration>, faults: Faults, done: seq<Migration>)
    requires pending == [] || !Lands(pending[0], faults)
    ensures var (s, n) := RunFrom(pending, faults, State(LogOf(done), LogOf(done), false));
            && n == 0 && s.committed == LogOf(done)
            && (IsIdle(s) <==> !Sticks(pending, faults)) && (s.inTransaction <==> Sticks(pending, faults))
  {
    if pending != [] && pending[0].complete && pending[0].statements != [] {
      MigrationAllOrNothing(pending[0], faults, State(LogOf(done), LogOf(done), false));
    }
  }

  lemma {:induction false} RunContinues(pending: seq<Migration>, faults: Faults, done: seq<Migration>)
    requires pending != [] && Lands(pending[0], faults)
    ensures pending == [pending[0]] + pending[1..]
    ensures var log := LogOf(done + [pending[0]]);
            var (s, n) := RunFrom(pending[1..], faults, State(log, log, false));
            RunFrom(pending, faults, State(LogOf(done), LogOf(done), false)) == (s, n + 1)
  {
    MigrationAllOrNothing(pending[0], faults, State(LogOf(done), LogOf(done), false));
    LogOfSnoc(done, pending[0]);
  }

  /** A connection left inside a transaction commits nothing more, whatever is run on it. */
  lemma {:induction false} RunInsideCommitsNothing(pending: seq<Migration>, faults: Faults, s: State)
    requires s.inTransaction
    ensures RunFrom(pending, faults, s).0.inTransaction && RunFrom(pending, faults, s).0.committed == s.committed
  {
    if pending != [] {
      InsideIsFlat(MigrationBlock(pending[0], faults), s);
      RunInsideCommitsNothing(pending[1..], faults, Exec(MigrationBlock(pending[0], faults), s).0);
    }
  }

  // ----- any sequence of runs ----------------------------------------------

  /** One call of the runner: the migration files it finds, and what goes wrong. */
  datatype Run = Run(files: seq<Migration>, faults: Faults)

  /** The migrations committed by the first `n` runs on a new database, in order. */
  function DoneAfter(runs: seq<Run>, n: nat): seq<Migration>
    requires n <= |runs|
  {
    if n == 0 then []
    else
      var done := DoneAfter(runs, n - 1);
      if StuckAfter(runs, n - 1) then done
      else done + Landing(Pending(runs[n - 1].files, VersionsOf(done)), runs[n - 1].faults)
  }

  /** Whether one of the first `n` runs failed at a COMMIT. */
  predicate StuckAfter(runs: seq<Run>, n: nat)
    requires n <= |runs|
  {
    n > 0
    && (StuckAfter(runs, n - 1)
        || Sticks(Pending(runs[n - 1].files, VersionsOf(DoneAfter(runs, n - 1))), runs[n - 1].faults))
  }

  /** The connection's state after the first `n` runs. */
  function StateAfter(runs: seq<Run>, n: nat): State
    requires n <= |runs|
  {
    if n == 0 then State([], [], false)
    else
      var s := StateAfter(runs, n - 1);
      RunFrom(Pending(runs[n - 1].files, Versions(s.working)), runs[n - 1].faults, s).0
  }

  lemma {:induction false} PendingMembers(ms: seq<Migration>, recorded: set<nat>, m: Migration)
    ensures m in Pending(ms, recorded) <==> m in ms && m.version !in recorded
  {
    FilteredMembers(ms, Unrecorded(recorded), m);
  }

  lemma {:induction false} PendingDistinct(ms: seq<Migration>, recorded: set<nat>)
    requires DistinctVersions(ms)
    ensures DistinctVersions(Pending(ms, recorded))
  {
    var at := FilteredSelects(ms, |ms|, Unrecorded(recorded));
  }

  /**
   * Over any sequence of failing and succeeding runs the store holds exactly the complete effects of the recorded
   * migrations, each once, and nothing else; and the connection is idle between runs if and only if no run failed at
   * a COMMIT.
   */
  lemma {:induction false} RunsApplyOnce(runs: seq<Run>, n: nat)
    requires n <= |runs| && forall r <- runs :: DistinctVersions(r.files)
    ensures var s, done := StateAfter(runs, n), DoneAfter(runs, n);
            && s.committed == LogOf(done) && DistinctVersions(done) && Versions(s.committed) == VersionsOf(done)
            && (IsIdle(s) <==> !StuckAfter(runs, n)) && (s.inTransaction <==> StuckAfter(runs, n))
  {
    if n == 0 {
      assert Versions([]) == {} && VersionsOf([]) == {};
    } else {
      RunsApplyOnce(runs, n - 1);
      var r, done, s := runs[n - 1], DoneAfter(runs, n - 1), StateAfter(runs, n - 1);
      if StuckAfter(runs, n - 1) {
        RunInsideCommitsNothing(Pending(r.files, Versions(s.working)), r.faults, s);
      } else {
        assert r in runs;
        RunFromIdle(r, done);
      }
    }
  }

  lemma {:induction false} RunFromIdle(r: Run, done: seq<Migration>)
    requires DistinctVersions(r.files) && DistinctVersions(done)
    ensures var pending := Pending(r.files, VersionsOf(done));
            var s := RunFrom(pending, r.faults, State(LogOf(done), LogOf(done), false)).0;
            var all := done + Landing(pending, r.faults);
            && s.committed == LogOf(all) && DistinctVersions(all) && Versions(s.committed) == VersionsOf(all)
            && (IsIdle(s) <==> !Sticks(pending, r.faults)) && (s.inTransaction <==> Sticks(pending, r.faults))
  {
    var pending := Pending(r.files, VersionsOf(done));
    RunCommitsLanding(pending, r.faults, done);
    PendingDistinct(r.files, VersionsOf(done));
    forall m | m in pending ensures m.version !in VersionsOf(done) {
      PendingMembers(r.files, VersionsOf(done), m);
    }
    AppendDistinct(done, pending, Landing(pending, r.faults));
    VersionsOfLog(done + Landing(pending, r.faults));
  }

  lemma {:induction false} AppendDistinct(done: seq<Migration>, pending: seq<Migration>, applied: seq<Migration>)
    requires DistinctVersions(done) && DistinctVersions(pending) && applied <= pending
    requires forall m <- pending :: m.version !in VersionsOf(done)
    ensures DistinctVersions(done + applied)
  {
    var all := done + applied;
    forall i, j | 0 <= i < j < |all| ensures all[i].version != all[j].version {
      if i < |done| <= j {
        assert done[i] in done && pending[j - |done|] in pending;
      } else if |done| <= i {
        assert all[i] == pending[i - |done|] && all[j] == pending[j - |done|];
      }
    }
  }

  /** A run on a new database in which every file lands leaves the effects of all files, in their order. */
  lemma {:induction false} NewDatabaseHoldsAll(ms: seq<Migration>, faults: Faults)
    requires DistinctVersions(ms) && forall m <- ms :: Lands(m, faults)
    ensures StateAfter([Run(ms, faults)], 1) == State(LogOf(ms), LogOf(ms), false)
  {
    var runs := [Run(ms, faults)];
    assert Versions([]) == {} && StateAfter(runs, 0) == State(LogOf([]), LogOf([]), false);
    FilteredAll(ms, |ms|, Unrecorded({}));
    assert ms[..|ms|] == ms && [] + ms == ms;
    AllLand(ms, faults);
    RunCommitsLanding(ms, faults, []);
  }

  lemma {:induction false} AllLand(ms: seq<Migration>, faults: Faults)
    requires forall m <- ms :: Lands(m, faults)
    ensures Landing(ms, faults) == ms && !Sticks(ms, faults)
  {
    if ms != [] {
      assert ms[0] in ms && forall m <- ms[1..] :: m in ms;
      AllLand(ms[1..], faults);
    }
  }

  /**
   * Over any sequence of runs, each run extends the store by the effects of unrecorded files in the order of their
   * versions, and skips no unrecorded earlier one.
   */
  lemma {:induction false} RunsKeepFileOrder(runs: seq<Run>, n: nat) returns (added: seq<Migration>)
    requires 0 < n <= |runs| && forall r <- runs :: Ascending(r.files)
    ensures StateAfter(runs, n).committed == StateAfter(runs, n - 1).committed + LogOf(added)
    ensures AppliesInOrder(runs[n - 1].files, Versions(StateAfter(runs, n - 1).committed), added)
  {
    RunsApplyOnce(runs, n - 1);
    assert runs[n - 1] in runs;
    added := RunExtends(runs[n - 1], DoneAfter(runs, n - 1), StateAfter(runs, n - 1));
  }

  lemma {:induction false} RunExtends(r: Run, done: seq<Migration>, s: State) returns (added: seq<Migration>)
    requires Ascending(r.files) && Versions(s.committed) == VersionsOf(done) && s.committed == LogOf(done)
    requires IsIdle(s) || s.inTransaction
    ensures RunFrom(Pending(r.files, Versions(s.working)), r.faults, s).0.committed == s.committed + LogOf(added)
    ensures AppliesInOrder(r.files, Versions(s.committed), added)
  {
    if s.inTransaction {
      RunInsideCommitsNothing(Pending(r.files, Versions(s.working)), r.faults, s);
      added := [];
    } else {
      assert s == State(LogOf(done), LogOf(done), false);
      added := Landing(Pending(r.files, VersionsOf(done)), r.faults);
      RunAddsInOrder(r, done);
    }
  }

  lemma {:induction false} RunAddsInOrder(r: Run, done: seq<Migration>)
    requires Ascending(r.files)
    ensures var pending := Pending(r.files, VersionsOf(done));
            var added := Landing(pending, r.faults);
            && RunFrom(pending, r.faults, State(LogOf(done), LogOf(done), false)).0.committed == LogOf(done) + LogOf(added)
            && AppliesInOrder(r.files, VersionsOf(done), added)
  {
    var pending := Pending(r.files, VersionsOf(done));
    var added := Landing(pending, r.faults);
    RunCommitsLanding(pending, r.faults, done);
    LogOfConcat(done, added);
    PendingInOrder(r.files, VersionsOf(done), |added|);
    assert added == pending[..|added|];
  }

  lemma {:induction false} LogOfConcat(a: seq<Migration>, b: seq<Migration>)
    ensures LogOf(a + b) == LogOf(a) + LogOf(b)
  {
    if b == [] {
      assert a + b == a;
    } else {
      var init, m := b[..|b| - 1], b[|b| - 1];
      LogOfConcat(a, init);
      LogOfSnoc(a + init, m);
      LogOfSnoc(init, m);
      assert b == init + [m] && a + b == a + init + [m];
      assert LogOf(a) + LogOf(init) + EffectOf(m) == LogOf(a) + (LogOf(init) + EffectOf(m));
    }
  }

  /** A run over files that are all recorded applies nothing and changes nothing, whatever could go wrong. */
  lemma {:induction false} UpToDateRunIsNoOp(ms: seq<Migration>, faults: Faults, s: State)
    requires forall m <- ms :: m.version in Versions(s.working)
    ensures RunFrom(Pending(ms, Versions(s.working)), faults, s) == (s, 0) && Pending(ms, Versions(s.working)) == []
  {
    forall k | 0 <= k < |ms| ensures !Unrecorded(Versions(s.working))(ms[k]) {
      assert ms[k] in ms;
    }
    FilteredNone(ms, |ms|, Unrecorded(Versions(s.working)));
  }

  /** A run that reports success on an idle connection has committed every file it found pending. */
  lemma {:induction false} SuccessCommits(pending: seq<Migration>, faults: Faults, s: State)
    requires IsIdle(s) && RunFrom(pending, faults, s).1 == |pending|
    ensures var after := RunFrom(pending, faults, s).0;
            && IsIdle(after) && Versions(s.committed) <= Versions(after.committed)
            && forall m <- pending :: m.version in Versions(after.committed)
  {
    if pending != [] {
      var m := pending[0];
      var next := Exec(MigrationBlock(m, faults), s).0;
      MigrationAllOrNothing(m, faults, s);
      RunAppliesPrefix(pending[1..], faults, next);
      SuccessCommits(pending[1..], faults, next);
      RecordsEffect(s.committed, m);
      assert forall p <- pending :: p == m || p in pending[1..];
    }
  }

  lemma {:induction false} RecordsEffect(log: Log, m: Migration)
    ensures Versions(log) <= Versions(log + EffectOf(m)) && m.version in Versions(log + EffectOf(m))
  {
    var all := log + EffectOf(m);
    assert all[|log| + |m.statements|] == Record(m.version);
    forall e | e in log ensures e in all {
    }
  }

  /**
   * A run that reports success has really committed all its files exactly when the connection was idle at the start,
   * or every file was committed already.
   */
  lemma {:induction false} SuccessIsCommittedExactlyWhen(ms: seq<Migration>, faults: Faults, s: State)
    requires IsIdle(s) || s.inTransaction
    requires RunFrom(Pending(ms, Versions(s.working)), faults, s).1 == |Pending(ms, Versions(s.working))|
    ensures var after := RunFrom(Pending(ms, Versions(s.working)), faults, s).0;
            (forall m <- ms :: m.version in Versions(after.committed))
            <==> IsIdle(s) || forall m <- ms :: m.version in Versions(s.committed)
  {
    var pending := Pending(ms, Versions(s.working));
    if s.inTransaction {
      RunInsideCommitsNothing(pending, faults, s);
    } else {
      SuccessCommits(pending, faults, s);
      forall m | m in ms ensures m.version in Versions(RunFrom(pending, faults, s).0.committed) {
        PendingMembers(ms, Versions(s.working), m);
      }
    }
  }

  /**
   * A COMMIT that fails does break the promise: the connection stays inside the transaction, so the next run on
   * it sees the migration as recorded and reports success, while nothing was ever committed.
   */
  lemma {:induction false} FailedCommitLooksApplied(m: Migration, e: Error, first: Faults, second: Faults)
    requires Applies(m, first) && first.commit(m.version) == Some(e)
    ensures var runs := [Run([m], first), Run([m], second)];
            && StateAfter(runs, 2).committed == []
            && Pending([m], Versions(StateAfter(runs, 1).working)) == []
            && StateAfter(runs, 2).inTransaction
  {
    var runs := [Run([m], first), Run([m], second)];
    var s0 := State([], [], false);
    assert Versions([]) == {};
    FilteredAll([m], 1, Unrecorded({}));
    assert Pending([m], {}) == [m];
    InsideIsFlat(BodyFrom(m, first, 0), s0.(inTransaction := true));
    BodyRuns(m, first, 0, []);
    var s1 := State([], EffectOf(m), true);
    assert [] + EffectOf(m)[0..] == EffectOf(m);
    assert Exec(MigrationBlock(m, first), s0) == (s1, Some(e));
    assert StateAfter(runs, 0) == s0 && StateAfter(runs, 1) == s1;
    assert m.version in Versions(EffectOf(m)) by {
      assert EffectOf(m)[|m.statements|] == Record(m.version);
    }
    UpToDateRunIsNoOp([m], second, s1);
  }
}

/** The two migration runners. Both keep a `migrations` table naming every script already
    applied, list the `*.sql` files of the migrations directory in sorted order and run, one at
    a time, each file not named in that table, recording its name after it succeeds.
    `MigrationManager.run_migrations` considers only names starting with "0", and stops at the
    first failing script; `migrate` in `db.py` takes every `*.sql` file, still records a
    script whose failure is a "duplicate column" error, and then fails on a shell command.

    What a script does to the schema cannot be computed here, so the outcome of running each
    file is an input (`run`), and the schema is represented by the log of scripts that ran to
    completion. */
module Migrations {
  import opened Base
  import opened Text

  /** The outcome of `executescript` on one file: success, or an exception that is an
      `sqlite3.OperationalError` or not, with its message. */
  datatype ScriptResult = Succeeds | Raises(operational: bool, message: string)

  /** A runner finishes the directory, re-raises the error of one file, or fails on a
      statement that SQLite cannot parse. */
  datatype Outcome = Completed | Raised(file: string) | Rejected(statement: string)

  /** `glob('*.sql')`: the name ends with ".sql". */
  predicate IsSqlFile(name: string)
  {
    EndsWith(name, ".sql")
  }

  /** The extra test of `_get_migration_files`. */
  predicate IsCandidate(name: string)
  {
    StartsWith(name, "0") && EndsWith(name, ".sql")
  }

  /** `sorted(dir.glob('*.sql'))`, over the names of the directory's entries. */
  function SqlFiles(listing: seq<string>): seq<string>
  {
    Sort(Filter(listing, IsSqlFile), LexLe)
  }

  /** The sorted `*.sql` names hold exactly the directory's `*.sql` names, in order. */
  lemma SqlFilesSorted(listing: seq<string>)
    ensures Sorted(SqlFiles(listing), LexLe)
    ensures forall x :: x in SqlFiles(listing) <==> x in listing && IsSqlFile(x)
  {
    LexLeOrders();
    SortSorted(Filter(listing, IsSqlFile), LexLe);
    assert forall x :: x in SqlFiles(listing) <==> x in multiset(Filter(listing, IsSqlFile));
  }

  /** `_get_migration_files`: the sorted `*.sql` names, keeping those that start with "0". */
  method GetMigrationFiles(listing: seq<string>) returns (files: seq<string>)
    ensures files == Filter(SqlFiles(listing), IsCandidate)
  {
    var sorted := SqlFiles(listing);
    files := [];
    var i := 0;
    while i < |sorted|
      invariant i <= |sorted|
      invariant files == Filter(sorted[..i], IsCandidate)
    {
      FilterSnoc(sorted, i, IsCandidate);
      if StartsWith(sorted[i], "0") && EndsWith(sorted[i], ".sql") {
        files := files + [sorted[i]];
      }
      i := i + 1;
    }
    assert sorted[..i] == sorted;
  }

  /** The migration files are exactly the directory's names that start with "0" and end with
      ".sql", in sorted order. */
  lemma MigrationFilesAreCandidates(listing: seq<string>)
    ensures var files := Filter(SqlFiles(listing), IsCandidate);
      && Sorted(files, LexLe)
      && forall x :: x in files <==> x in listing && IsCandidate(x)
  {
    SqlFilesSorted(listing);
    LexLeOrders();
    FilterSorted(SqlFiles(listing), IsCandidate, LexLe);
  }

  /** The set `_get_applied_migrations` builds from the table's rows. */
  function AppliedNames(rows: seq<string>): (r: set<string>)
    ensures forall x :: x in r <==> x in rows
  {
    set x | x in rows
  }

  /** The files of `files` not named in `applied`, in order. */
  function Unapplied(files: seq<string>, applied: set<string>): seq<string>
  {
    if files == [] then []
    else
      var last := files[|files| - 1];
      Unapplied(files[..|files| - 1], applied) + (if last in applied then [] else [last])
  }

  /** The files of `files` not named in `applied` whose script succeeds, in order. */
  function CleanRuns(files: seq<string>, applied: set<string>, run: string -> ScriptResult): seq<string>
  {
    if files == [] then []
    else
      var last := files[|files| - 1];
      CleanRuns(files[..|files| - 1], applied, run) + (if last in applied || !run(last).Succeeds? then [] else [last])
  }

  /** The unapplied files are exactly the files not named in `applied`. */
  lemma {:induction false} UnappliedMembers(files: seq<string>, applied: set<string>)
    ensures forall x :: x in Unapplied(files, applied) <==> x in files && x !in applied
  {
    if files != [] {
      var init := files[..|files| - 1];
      UnappliedMembers(init, applied);
      assert files == init + [files[|files| - 1]];
    }
  }

  /** Whether a runner goes on after running a file with this result: always after success,
      and for `db.py` (`tolerant`) also after an `OperationalError` mentioning
      "duplicate column". */
  predicate Continues(r: ScriptResult, tolerant: bool)
  {
    r.Succeeds? || (tolerant && r.operational && Contains(r.message, "duplicate column"))
  }

  /** Index of the first pending file whose script stops the run; `|files|` when none does. */
  function FirstStop(files: seq<string>, applied: set<string>, run: string -> ScriptResult, tolerant: bool): (k: nat)
    ensures k <= |files|
    ensures forall j | 0 <= j < k :: files[j] in applied || Continues(run(files[j]), tolerant)
    ensures k < |files| ==> files[k] !in applied && !Continues(run(files[k]), tolerant)
  {
    if files == [] then 0
    else if files[0] in applied || Continues(run(files[0]), tolerant) then
      var k := FirstStop(files[1..], applied, run, tolerant);
      assert forall j | 1 <= j < k + 1 :: files[j] == files[1..][j - 1];
      k + 1
    else 0
  }

  /** The outcome of a run over `files` that stops at index `k`. */
  function OutcomeAt(files: seq<string>, k: nat): Outcome
    requires k <= |files|
  {
    if k < |files| then Raised(files[k]) else Completed
  }

  /** The database: whether the `migrations` table exists, its name column in rowid order, and
      the scripts whose effects are committed to the schema, oldest first. */
  class MigrationDb {
    var hasTable: bool
    var recorded: seq<string>
    var executed: seq<string>

    /** Rows exist only in an existing table. */
    ghost predicate Valid()
      reads this
    {
      !hasTable ==> recorded == []
    }

    /** A fresh database file. */
    constructor ()
      ensures Valid()
      ensures !hasTable && recorded == [] && executed == []
    {
      hasTable := false;
      recorded := [];
      executed := [];
    }

    /** `CREATE TABLE IF NOT EXISTS migrations`: creates the table when missing and otherwise
        leaves it, and its rows, as they are. */
    method InitTable()
      modifies this
      requires Valid()
      ensures Valid()
      ensures hasTable && recorded == old(recorded) && executed == old(executed)
    {
      hasTable := true;
    }
  }

  /** The loop of both runners over `files`: each file not in `applied` is run; a result that
      `Continues` the run records the file (and a success logs its script as run to
      completion), any other result ends the run with that file unrecorded. */
  method ApplyPending(db: MigrationDb, files: seq<string>, applied: set<string>, run: string -> ScriptResult,
                      tolerant: bool) returns (outcome: Outcome)
    modifies db
    requires db.Valid() && db.hasTable
    ensures db.Valid() && db.hasTable
    ensures var k := FirstStop(files, applied, run, tolerant);
      && outcome == OutcomeAt(files, k)
      && db.recorded == old(db.recorded) + Unapplied(files[..k], applied)
      && db.executed == old(db.executed) + CleanRuns(files[..k], applied, run)
  {
    ghost var k := FirstStop(files, applied, run, tolerant);
    ghost var recorded0, executed0 := db.recorded, db.executed;
    var i := 0;
    while i < |files|
      invariant i <= k
      invariant db.hasTable && db.Valid()
      invariant db.recorded == recorded0 + Unapplied(files[..i], applied)
      invariant db.executed == executed0 + CleanRuns(files[..i], applied, run)
    {
      assert files[..i + 1][..i] == files[..i];
      var name := files[i];
      if name !in applied {
        var result := run(name);
        if result.Succeeds? {
          db.executed := db.executed + [name];
        } else if !(tolerant && result.operational && Contains(result.message, "duplicate column")) {
          return Raised(name);
        }
        db.recorded := db.recorded + [name];
      }
      i := i + 1;
    }
    assert files[..i] == files;
    return Completed;
  }

  /** `MigrationManager.run_migrations`: every pending migration file, in sorted order, is run
      and then recorded and committed; the first failure is re-raised, which ends the run with
      the earlier files recorded, the failing one not, and the later ones not attempted. */
  method RunMigrations(db: MigrationDb, listing: seq<string>, run: string -> ScriptResult) returns (outcome: Outcome)
    modifies db
    requires db.Valid()
    ensures db.Valid() && db.hasTable
    ensures var files := Filter(SqlFiles(listing), IsCandidate);
      var applied := AppliedNames(old(db.recorded));
      var k := FirstStop(files, applied, run, false);
      && outcome == OutcomeAt(files, k)
      && db.recorded == old(db.recorded) + Unapplied(files[..k], applied)
      && db.executed == old(db.executed) + CleanRuns(files[..k], applied, run)
  {
    db.InitTable();
    var applied := AppliedNames(db.recorded);
    var files := GetMigrationFiles(listing);
    outcome := ApplyPending(db, files, applied, run, false);
  }

  /** `migrate` in `db.py`: every pending `*.sql` file, in sorted order, is run and recorded.
      A "duplicate column" `OperationalError` is reported and the file still recorded; any
      other error is re-raised, ending the run with the earlier files recorded. When the loop
      finishes, `cursor.execute(".tables")` passes an sqlite shell command to SQLite, which
      rejects it as a syntax error, so `migrate` never returns normally. */
  method Migrate(db: MigrationDb, listing: seq<string>, run: string -> ScriptResult) returns (outcome: Outcome)
    modifies db
    requires db.Valid()
    ensures db.Valid() && db.hasTable
    ensures var files := SqlFiles(listing);
      var applied := AppliedNames(old(db.recorded));
      var k := FirstStop(files, applied, run, true);
      && outcome == (if k < |files| then Raised(files[k]) else Rejected(".tables"))
      && db.recorded == old(db.recorded) + Unapplied(files[..k], applied)
      && db.executed == old(db.executed) + CleanRuns(files[..k], applied, run)
  {
    db.InitTable();
    var applied := AppliedNames(db.recorded);
    outcome := ApplyPending(db, SqlFiles(listing), applied, run, true);
    if outcome.Completed? {
      outcome := Rejected(".tables");
    }
  }

  /** Without the "duplicate column" tolerance every file recorded by the loop was run cleanly. */
  lemma {:induction false} StrictRunsAllClean(files: seq<string>, applied: set<string>, run: string -> ScriptResult)
    ensures var k := FirstStop(files, applied, run, false);
      CleanRuns(files[..k], applied, run) == Unapplied(files[..k], applied)
  {
    var k := FirstStop(files, applied, run, false);
    CleanEqualsUnapplied(files[..k], applied, run);
  }

  lemma {:induction false} CleanEqualsUnapplied(files: seq<string>, applied: set<string>, run: string -> ScriptResult)
    requires forall j | 0 <= j < |files| :: files[j] in applied || run(files[j]).Succeeds?
    ensures CleanRuns(files, applied, run) == Unapplied(files, applied)
  {
    if files != [] {
      CleanEqualsUnapplied(files[..|files| - 1], applied, run);
    }
  }

  /** A file is recorded by a run only if it was pending and its script did not stop the run;
      a run that completes records every pending file. */
  lemma RecordedOnlyPending(files: seq<string>, applied: set<string>, run: string -> ScriptResult, tolerant: bool)
    ensures var k := FirstStop(files, applied, run, tolerant);
      var added := Unapplied(files[..k], applied);
      && (forall x | x in added :: x !in applied && Continues(run(x), tolerant))
      && (k == |files| ==> forall x | x in files && x !in applied :: x in added)
  {
    var k := FirstStop(files, applied, run, tolerant);
    UnappliedMembers(files[..k], applied);
    forall x | x in Unapplied(files[..k], applied)
      ensures x !in applied && Continues(run(x), tolerant)
    {
      var j :| 0 <= j < k && files[..k][j] == x;
    }
    if k == |files| {
      assert files[..k] == files;
    }
  }

  /** Running again over the same directory after a completed run applies nothing: every file
      is now named in the table, so the second run completes and records nothing, whatever
      the scripts would do. */
  lemma RerunAppliesNothing(files: seq<string>, rows: seq<string>, run: string -> ScriptResult, run2: string -> ScriptResult, tolerant: bool)
    requires FirstStop(files, AppliedNames(rows), run, tolerant) == |files|
    ensures var rows2 := rows + Unapplied(files, AppliedNames(rows));
      && FirstStop(files, AppliedNames(rows2), run2, tolerant) == |files|
      && Unapplied(files, AppliedNames(rows2)) == []
  {
    var added := Unapplied(files, AppliedNames(rows));
    var applied2 := AppliedNames(rows + added);
    RecordedOnlyPending(files, AppliedNames(rows), run, tolerant);
    assert files[..|files|] == files;
    assert forall x | x in files :: x in applied2 by {
      forall x | x in files ensures x in applied2 {
        if x !in rows {
          assert x in added;
          assert x in rows + added;
        }
      }
    }
    UnappliedNone(files, applied2);
  }

  /** Nothing is unapplied when every file is named. */
  lemma {:induction false} UnappliedNone(files: seq<string>, applied: set<string>)
    requires forall x | x in files :: x in applied
    ensures Unapplied(files, applied) == []
  {
    if files != [] {
      UnappliedNone(files[..|files| - 1], applied);
    }
  }

  /** The table only grows, and a file named in it is never run again: a run appends to the
      rows it found, and only names that were not among them. */
  lemma AppliedOnlyGrows(files: seq<string>, rows: seq<string>, run: string -> ScriptResult, tolerant: bool)
    ensures var applied := AppliedNames(rows);
      var rows2 := rows + Unapplied(files[..FirstStop(files, applied, run, tolerant)], applied);
      && AppliedNames(rows) <= AppliedNames(rows2)
      && forall x | x in rows2[|rows|..] :: x !in rows
  {
    var applied := AppliedNames(rows);
    var added := Unapplied(files[..FirstStop(files, applied, run, tolerant)], applied);
    UnappliedMembers(files[..FirstStop(files, applied, run, tolerant)], applied);
    assert (rows + added)[|rows|..] == added;
  }

  /** `db.py` runs to completion, among the files it records, exactly those whose script
      succeeds; those whose script failed with "duplicate column" are recorded although their
      script stopped at the error. */
  lemma {:induction false} CleanRunsRecorded(files: seq<string>, applied: set<string>, run: string -> ScriptResult)
    ensures forall x :: x in CleanRuns(files, applied, run) <==> x in Unapplied(files, applied) && run(x).Succeeds?
  {
    if files != [] {
      var init := files[..|files| - 1];
      CleanRunsRecorded(init, applied, run);
      UnappliedMembers(files, applied);
      UnappliedMembers(init, applied);
      assert files == init + [files[|files| - 1]];
    }
  }
}

/** The row-by-row migration of `etl/loader.py`: every SQLite row is
    re-inserted into PostgreSQL with one INSERT each, inside one transaction
    that is committed at the end, and the menu entry that starts it only when
    the PostgreSQL tables are missing. */
module RowMigration {
  import opened Base
  import opened Store

  /** The four tables `create_postgres_schema` of `etl/loader.py` creates. */
  const PgRequiredTables: set<string> := {"patients", "conditions", "medications", "processed_files"}

  /** The PostgreSQL database as this migration sees it: the tables of the
      schema and their content. */
  datatype PgState = PgState(tables: set<string>, content: PgTables)

  /** The result of one `migrate_to_postgres` call: whether it reached its
      commit, and the database afterwards. */
  datatype RowRun = RowRun(ok: bool, after: PgState)

  /** The foreign key of `conditions` and `medications`: each patient id is
      NULL or names a patient. */
  predicate Refers(rows: seq<Row>, patients: map<string, string>)
  {
    forall i :: 0 <= i < |rows| ==> rows[i].patientId.None? || rows[i].patientId.value in patients
  }

  /** The patients table after the inserts with `ON CONFLICT (patient_id) DO
      NOTHING`: an id already present keeps its stored gender. */
  function MergedPatients(existing: map<string, string>, source: map<string, string>): (m: map<string, string>)
    ensures m.Keys == existing.Keys + source.Keys
    ensures forall k :: k in existing ==> m[k] == existing[k]
    ensures forall k :: k in source && k !in existing ==> m[k] == source[k]
  {
    source + existing
  }

  /** `migrate_to_postgres` of `etl/loader.py`. Without a connection nothing
      happens. Otherwise the schema is created and committed first; then a
      patient row with a NULL id (the primary key is NOT NULL) or a condition
      or medication naming no patient raises, and the open transaction is
      never committed. Otherwise patients and file names already present
      are kept, and condition and medication rows are appended. */
  function RowMigrate(s: PgState, t: Tables, reachable: bool): RowRun
  {
    if !reachable then RowRun(false, s)
    else
      var created := PgState(s.tables + PgRequiredTables, s.content);
      var patients := MergedPatients(s.content.patients, t.patients);
      if |t.nullIdPatients| > 0 || !Refers(t.conditions, patients) || !Refers(t.medications, patients) then
        RowRun(false, created)
      else
        RowRun(true, PgState(created.tables, PgTables(
          patients,
          s.content.conditions + t.conditions,
          s.content.medications + t.medications,
          s.content.processedFiles + t.processedFiles)))
  }

  /** The migration commits exactly when the connection opens, no patient id
      is NULL and every row names a patient of the merged table; when it
      does not commit, the rows are untouched. */
  lemma RowMigrateOutcome(s: PgState, t: Tables, reachable: bool)
    ensures var r := RowMigrate(s, t, reachable);
      r.ok <==> (reachable && |t.nullIdPatients| == 0
        && Refers(t.conditions, MergedPatients(s.content.patients, t.patients))
        && Refers(t.medications, MergedPatients(s.content.patients, t.patients)))
    ensures !RowMigrate(s, t, reachable).ok ==> RowMigrate(s, t, reachable).after.content == s.content
    ensures reachable ==> PgRequiredTables <= RowMigrate(s, t, reachable).after.tables
  {
  }

  /** The foreign key holds after a run whenever it held before. */
  lemma RowMigrateKeepsReferences(s: PgState, t: Tables, reachable: bool)
    requires Refers(s.content.conditions, s.content.patients) && Refers(s.content.medications, s.content.patients)
    ensures var c := RowMigrate(s, t, reachable).after.content;
      Refers(c.conditions, c.patients) && Refers(c.medications, c.patients)
  {
    var r := RowMigrate(s, t, reachable);
    if r.ok {
      var c := r.after.content;
      forall i | 0 <= i < |c.conditions| && c.conditions[i].patientId.Some?
        ensures c.conditions[i].patientId.value in c.patients
      {
        if i < |s.content.conditions| {
          assert c.conditions[i] == s.content.conditions[i];
        } else {
          assert c.conditions[i] == t.conditions[i - |s.content.conditions|];
        }
      }
      forall i | 0 <= i < |c.medications| && c.medications[i].patientId.Some?
        ensures c.medications[i].patientId.value in c.patients
      {
        if i < |s.content.medications| {
          assert c.medications[i] == s.content.medications[i];
        } else {
          assert c.medications[i] == t.medications[i - |s.content.medications|];
        }
      }
    }
  }

  /** Running the migration a second time: the patients and the ledger of
      processed files are as after the first run, while every condition and
      medication row is inserted once more. */
  lemma {:induction false} RowMigrateRerun(s: PgState, t: Tables)
    requires RowMigrate(s, t, true).ok
    ensures var first := RowMigrate(s, t, true);
      var second := RowMigrate(first.after, t, true);
      && second.ok
      && second.after.tables == first.after.tables
      && second.after.content.patients == first.after.content.patients
      && second.after.content.processedFiles == first.after.content.processedFiles
      && second.after.content.conditions == first.after.content.conditions + t.conditions
      && second.after.content.medications == first.after.content.medications + t.medications
  {
    var first := RowMigrate(s, t, true);
    var p := first.after.content.patients;
    assert MergedPatients(p, t.patients) == p;
    assert first.after.tables + PgRequiredTables == first.after.tables;
    assert first.after.content.processedFiles + t.processedFiles == first.after.content.processedFiles;
  }

  /** `check_postgres_tables_exist`: the four required tables are in the
      schema; a failure to connect or query reads as False. */
  function TablesExist(reachable: bool, s: PgState): (r: bool)
    ensures r <==> (reachable && "patients" in s.tables && "conditions" in s.tables
      && "medications" in s.tables && "processed_files" in s.tables)
  {
    reachable && PgRequiredTables <= s.tables
  }

  datatype ChoiceEnd = Ignored | AlreadyMigrated | MigrationRan(ok: bool)

  datatype ChoiceRun = ChoiceRun(end: ChoiceEnd, after: PgState)

  /** `handle_migration_choice`: only the answer 'S' does anything, and it
      migrates only when the tables are missing; an exception of the
      migration is caught and reported. */
  function MigrationChoice(choice: string, s: PgState, t: Tables, reachable: bool): (r: ChoiceRun)
    ensures r.end.MigrationRan? <==> choice == "S" && !TablesExist(reachable, s)
    ensures !r.end.MigrationRan? ==> r.after == s
  {
    if choice != "S" then ChoiceRun(Ignored, s)
    else if TablesExist(reachable, s) then ChoiceRun(AlreadyMigrated, s)
    else
      var run := RowMigrate(s, t, reachable);
      ChoiceRun(MigrationRan(run.ok), run.after)
  }

  /** Once any migration attempt has reached the database, even one that
      raised before its commit, the tables exist and a later 'S' does not
      migrate: the check is on the tables, not on their rows. */
  lemma ChoiceAfterAttemptDoesNotMigrate(s: PgState, t: Tables, t2: Tables)
    ensures var first := MigrationChoice("S", s, t, true);
      MigrationChoice("S", first.after, t2, true) == ChoiceRun(AlreadyMigrated, first.after)
  {
    var first := MigrationChoice("S", s, t, true);
    if first.end.MigrationRan? {
      RowMigrateOutcome(s, t, true);
    }
  }

  /** Appending fetched rows one INSERT at a time, each checked against the
      foreign key. */
  method InsertRows(existing: seq<Row>, rows: seq<Row>, patients: map<string, string>) returns (ok: bool, result: seq<Row>)
    ensures ok <==> Refers(rows, patients)
    ensures ok ==> result == existing + rows
  {
    result := existing;
    for i := 0 to |rows|
      invariant result == existing + rows[..i]
      invariant Refers(rows[..i], patients)
    {
      var row := rows[i];
      if row.patientId.Some? && row.patientId.value !in patients {
        return false, result;
      }
      result := result + [row];
    }
    assert rows[..|rows|] == rows;
    ok := true;
  }

  /** The patient inserts with `ON CONFLICT (patient_id) DO NOTHING`, one
      fetched row at a time. */
  method InsertPatients(existing: map<string, string>, source: map<string, string>) returns (patients: map<string, string>)
    ensures patients == MergedPatients(existing, source)
  {
    patients := existing;
    var pending := source.Keys;
    while pending != {}
      invariant pending <= source.Keys
      invariant patients == MergedPatients(existing, Taken(source, pending))
      decreases |pending|
    {
      var k :| k in pending;
      TakeOneMore(existing, source, pending, k);
      if k !in patients {
        patients := patients[k := source[k]];
      }
      pending := pending - {k};
    }
    assert Taken(source, pending) == source;
  }

  /** The rows of `source` the loop has inserted while `pending` are left. */
  function Taken(source: map<string, string>, pending: set<string>): map<string, string>
  {
    map k | k in source.Keys - pending :: source[k]
  }

  /** Inserting one more fetched patient row. */
  lemma TakeOneMore(existing: map<string, string>, source: map<string, string>, pending: set<string>, k: string)
    requires k in pending && pending <= source.Keys
    ensures var before := MergedPatients(existing, Taken(source, pending));
      MergedPatients(existing, Taken(source, pending - {k})) ==
        if k in before then before else before[k := source[k]]
  {
    var before := MergedPatients(existing, Taken(source, pending));
    var after := MergedPatients(existing, Taken(source, pending - {k}));
    assert Taken(source, pending - {k}) == Taken(source, pending)[k := source[k]];
    if k in before {
      assert after.Keys == before.Keys;
    }
  }

  /** The ledger inserts with `ON CONFLICT (file_name) DO NOTHING`. */
  method InsertFiles(existing: set<string>, names: set<string>) returns (files: set<string>)
    ensures files == existing + names
  {
    files := existing;
    var unseen := names;
    while unseen != {}
      invariant unseen <= names
      invariant files == existing + (names - unseen)
      decreases |unseen|
    {
      var f :| f in unseen;
      files := files + {f};
      unseen := unseen - {f};
    }
  }

  /** The PostgreSQL database written by `etl/loader.py`. */
  class PostgresDatabase {
    var tables: set<string>
    var content: PgTables

    function Current(): PgState
      reads this
    {
      PgState(tables, content)
    }

    constructor(s: PgState)
      ensures Current() == s
    {
      tables := s.tables;
      content := s.content;
    }

    /** `migrate_to_postgres`: the inserts go to a pending copy of the rows,
        which is written back only at the commit. */
    method MigrateToPostgres(t: Tables, reachable: bool) returns (ok: bool)
      modifies this
      ensures RowRun(ok, Current()) == RowMigrate(old(Current()), t, reachable)
    {
      if !reachable {
        return false;
      }
      tables := tables + PgRequiredTables;
      if |t.nullIdPatients| > 0 {
        return false;
      }
      var patients := InsertPatients(content.patients, t.patients);
      var conditionsOk, conditions := InsertRows(content.conditions, t.conditions, patients);
      if !conditionsOk {
        return false;
      }
      var medicationsOk, medications := InsertRows(content.medications, t.medications, patients);
      if !medicationsOk {
        return false;
      }
      var files := InsertFiles(content.processedFiles, t.processedFiles);
      content := PgTables(patients, conditions, medications, files);
      ok := true;
    }

    /** `handle_migration_choice`. */
    method HandleMigrationChoice(choice: string, t: Tables, reachable: bool) returns (end: ChoiceEnd)
      modifies this
      ensures ChoiceRun(end, Current()) == MigrationChoice(choice, old(Current()), t, reachable)
    {
      if choice != "S" {
        return Ignored;
      }
      if TablesExist(reachable, Current()) {
        return AlreadyMigrated;
      }
      var ok := MigrateToPostgres(t, reachable);
      end := MigrationRan(ok);
    }
  }
}

/** The bulk migration of etl/loader_pipeline.py: the validation of the SQLite
    store, the completion probe of the PostgreSQL store, the early returns of
    `migrate_to_postgres`, the per-cell cleaning before the COPY and the
    aggregate refresh. The COPY itself is modelled by what it leaves in the
    target tables. */
module Migration {
  import opened Base
  import opened Store
  import Sanitize
  import Catalog
  import SqliteIngest

  // ----- validate_data_for_postgres -----

  /** The LEFT JOIN finds a patient for this row: a NULL patient_id never
      matches, because NULL = NULL is not true in SQL. */
  predicate Matches(r: Row, patients: map<string, string>)
  {
    r.patientId.Some? && r.patientId.value in patients
  }

  /** Reference definition of what the validation accepts: no patient row
      with a NULL or empty id, and no condition or medication row without a
      matching patient. */
  predicate ValidForPostgres(t: Tables)
  {
    && |t.nullIdPatients| == 0
    && "" !in t.patients
    && (forall i :: 0 <= i < |t.conditions| ==> Matches(t.conditions[i], t.patients))
    && (forall i :: 0 <= i < |t.medications| ==> Matches(t.medications[i], t.patients))
  }

  /** The orphan query: `SELECT patient_id ... WHERE p.patient_id IS NULL
      GROUP BY patient_id`, one result per distinct unmatched id. */
  function OrphanIds(rows: seq<Row>, patients: map<string, string>): set<Option<string>>
  {
    set i | 0 <= i < |rows| && !Matches(rows[i], patients) :: rows[i].patientId
  }

  /** The orphan query comes back empty exactly when every row matches. */
  lemma OrphanIdsEmptyIff(rows: seq<Row>, patients: map<string, string>)
    ensures OrphanIds(rows, patients) == {} <==> forall i :: 0 <= i < |rows| ==> Matches(rows[i], patients)
  {
    if exists i :: 0 <= i < |rows| && !Matches(rows[i], patients) {
      var i :| 0 <= i < |rows| && !Matches(rows[i], patients);
      assert rows[i].patientId in OrphanIds(rows, patients);
    }
  }

  /** Extending the scanned rows by one adds at most that row's id. */
  lemma OrphanIdsSnoc(rows: seq<Row>, i: nat, patients: map<string, string>)
    requires i < |rows|
    ensures OrphanIds(rows[..i + 1], patients) ==
            OrphanIds(rows[..i], patients) + (if Matches(rows[i], patients) then {} else {rows[i].patientId})
  {
    var a, b := rows[..i + 1], rows[..i];
    assert forall j :: 0 <= j < i ==> a[j] == b[j];
  }

  /** The orphan scan of one table. */
  method OrphanPatientIds(rows: seq<Row>, patients: map<string, string>) returns (ids: set<Option<string>>)
    ensures ids == OrphanIds(rows, patients)
  {
    ids := {};
    var i := 0;
    while i < |rows|
      invariant 0 <= i <= |rows|
      invariant ids == OrphanIds(rows[..i], patients)
    {
      OrphanIdsSnoc(rows, i, patients);
      if !Matches(rows[i], patients) {
        ids := ids + {rows[i].patientId};
      }
      i := i + 1;
    }
    assert rows[..i] == rows;
  }

  /** The patient scan: one entry per patient row whose id is NULL or ''.
      The rows with a NULL id come first here; the source's order does not
      matter, only whether the list is empty. */
  method InvalidPatients(t: Tables) returns (invalid: seq<Option<string>>)
    ensures |invalid| == |t.nullIdPatients| + (if "" in t.patients then 1 else 0)
    ensures forall x :: x in invalid ==> x == None || x == Some("")
  {
    invalid := [];
    var i := 0;
    while i < |t.nullIdPatients|
      invariant 0 <= i <= |t.nullIdPatients|
      invariant |invalid| == i
      invariant forall x :: x in invalid ==> x == None
    {
      invalid := invalid + [None];
      i := i + 1;
    }
    var rest := t.patients.Keys;
    while rest != {}
      invariant rest <= t.patients.Keys
      invariant |invalid| == |t.nullIdPatients| + (if "" in t.patients.Keys - rest then 1 else 0)
      invariant forall x :: x in invalid ==> x == None || x == Some("")
      decreases |rest|
    {
      var k :| k in rest;
      if k == "" {
        invalid := invalid + [Some(k)];
      }
      rest := rest - {k};
    }
  }

  /** `validate_data_for_postgres`: the patient scan, then the orphan
      conditions, then the orphan medications, returning at the first
      failure. It accepts exactly the stores `ValidForPostgres` describes. */
  method ValidateDataForPostgres(t: Tables) returns (ok: bool)
    ensures ok <==> ValidForPostgres(t)
  {
    var invalid := InvalidPatients(t);
    if invalid != [] {
      return false;
    }
    var orphanConditions := OrphanPatientIds(t.conditions, t.patients);
    OrphanIdsEmptyIff(t.conditions, t.patients);
    if orphanConditions != {} {
      return false;
    }
    var orphanMedications := OrphanPatientIds(t.medications, t.patients);
    OrphanIdsEmptyIff(t.medications, t.patients);
    ok := orphanMedications == {};
  }

  /** The validation in terms of the ingestion's own invariant: a store is
      accepted exactly when it keeps referential integrity, has no patient
      row with a NULL or empty id and no condition or medication row with a
      NULL patient id. */
  lemma ValidIffIntegrityWithoutNulls(t: Tables)
    ensures ValidForPostgres(t) <==>
      && SqliteIngest.RefIntegrity(t)
      && |t.nullIdPatients| == 0
      && "" !in t.patients
      && (forall r :: r in t.conditions ==> r.patientId.Some?)
      && (forall r :: r in t.medications ==> r.patientId.Some?)
  {
    if ValidForPostgres(t) {
      forall r | r in t.conditions ensures Matches(r, t.patients) {
        var i :| 0 <= i < |t.conditions| && t.conditions[i] == r;
      }
      forall r | r in t.medications ensures Matches(r, t.patients) {
        var i :| 0 <= i < |t.medications| && t.medications[i] == r;
      }
    }
  }

  // ----- Cell cleaning in migrate_table_with_copy -----

  /** One CSV cell: `str(item)` or '' for None, with carriage returns and
      line feeds replaced by spaces. */
  function CleanCell(item: Option<string>): string
  {
    match item
    case None => ""
    case Some(s) => Sanitize.Replace(Sanitize.Replace(s, '\r', ' '), '\n', ' ')
  }

  /** A cleaned cell holds no line break; None becomes the empty cell, and a
      value keeps its length and every character other than CR and LF. */
  lemma CleanCellSpec(item: Option<string>)
    ensures NoLineBreaks(CleanCell(item))
    ensures item.None? ==> CleanCell(item) == ""
    ensures item.Some? ==> |CleanCell(item)| == |item.value|
    ensures item.Some? ==> forall i :: 0 <= i < |item.value| ==>
              CleanCell(item)[i] == (if item.value[i] == '\r' || item.value[i] == '\n' then ' ' else item.value[i])
  {
  }

  /** How `COPY ... WITH (FORMAT CSV, NULL '')` reads a cell back: an empty
      unquoted cell is NULL. */
  function ReadCell(cell: string): Option<string>
  {
    if cell == "" then None else Some(cell)
  }

  /** What a column holds after the COPY of a source value. */
  function Stored(item: Option<string>): Option<string>
  {
    ReadCell(CleanCell(item))
  }

  predicate NoLineBreaks(s: string)
  {
    forall i :: 0 <= i < |s| ==> s[i] != '\r' && s[i] != '\n'
  }

  /** A NULL and a non-empty single-line value survive the round trip
      through the CSV file unchanged; an empty string comes back as NULL. */
  lemma StoredRoundTrip(item: Option<string>)
    ensures item.None? ==> Stored(item) == None
    ensures item == Some("") ==> Stored(item) == None
    ensures item.Some? && item.value != "" && NoLineBreaks(item.value) ==> Stored(item) == item
    ensures item.Some? && item.value != "" ==> Stored(item) == Some(CleanCell(item))
  {
    CleanCellSpec(item);
    if item.Some? && item.value != "" && NoLineBreaks(item.value) {
      var c := CleanCell(item);
      assert forall i :: 0 <= i < |c| ==> c[i] == item.value[i];
      assert c == item.value;
    }
  }

  /** Cleaning a cleaned cell again changes nothing. */
  lemma CleanCellIdempotent(item: Option<string>)
    ensures CleanCell(Some(CleanCell(item))) == CleanCell(item)
  {
    var once := CleanCell(item);
    CleanCellSpec(item);
    CleanCellSpec(Some(once));
    assert forall i :: 0 <= i < |once| ==> CleanCell(Some(once))[i] == once[i];
  }

  /** The batch loop: every item of every row goes through `CleanCell`. */
  method CleanBatch(batch: seq<seq<Option<string>>>) returns (cleaned: seq<seq<string>>)
    ensures |cleaned| == |batch|
    ensures forall i :: 0 <= i < |batch| ==> |cleaned[i]| == |batch[i]|
    ensures forall i, j :: 0 <= i < |batch| && 0 <= j < |batch[i]| ==> cleaned[i][j] == CleanCell(batch[i][j])
  {
    cleaned := [];
    for i := 0 to |batch|
      invariant |cleaned| == i
      invariant forall p :: 0 <= p < i ==> |cleaned[p]| == |batch[p]|
      invariant forall p, q :: 0 <= p < i && 0 <= q < |batch[p]| ==> cleaned[p][q] == CleanCell(batch[p][q])
    {
      var row := batch[i];
      var cleanedRow: seq<string> := [];
      for j := 0 to |row|
        invariant |cleanedRow| == j
        invariant forall q :: 0 <= q < j ==> cleanedRow[q] == CleanCell(row[q])
      {
        cleanedRow := cleanedRow + [CleanCell(row[j])];
      }
      cleaned := cleaned + [cleanedRow];
    }
  }

  // ----- What the COPY leaves in the PostgreSQL tables -----

  /** A condition or medication row as PostgreSQL holds it after the COPY:
      both columns may be NULL, because an empty cell reads back as NULL. */
  datatype PgRow = PgRow(patientId: Option<string>, text: Option<string>)

  /** The four copied tables of the PostgreSQL store. The gender column may
      be NULL for the same reason. */
  datatype Copied = Copied(
    patients: map<string, Option<string>>,
    conditions: seq<PgRow>,
    medications: seq<PgRow>,
    processedFiles: set<string>)

  /** The aggregate tables: label (or gender) to count. */
  datatype Aggregates = Aggregates(
    conditions: map<string, nat>,
    medications: map<string, nat>,
    genders: map<string, nat>)

  /** The PostgreSQL store as the migration sees it: whether the schema
      exists, which tables exist in it, and their content. */
  datatype Secondary = Secondary(
    schemaExists: bool,
    tables: set<string>,
    content: Copied,
    aggregates: Aggregates)

  const EmptyCopied := Copied(map[], [], [], {})
  const EmptySecondary := Secondary(false, {}, EmptyCopied, Aggregates(map[], map[], map[]))

  /** Two distinct source values that the cleaning turns into the same cell. */
  predicate Collide(values: set<string>)
  {
    exists a, b :: a in values && b in values && a != b && CleanCell(Some(a)) == CleanCell(Some(b))
  }

  /** The COPY into `patients`, whose patient_id is the primary key: it fails
      as a whole on a NULL key (a NULL or empty source id) and on a key that
      is already present or occurs twice once cleaned. */
  function CopyPatients(existing: map<string, Option<string>>, t: Tables): Option<map<string, Option<string>>>
  {
    if |t.nullIdPatients| > 0 || "" in t.patients then None
    else if Collide(t.patients.Keys) || (exists k :: k in t.patients && CleanCell(Some(k)) in existing) then None
    else Some(existing + CleanedPatients(t.patients))
  }

  /** The patients rows as the COPY stores them: cleaned key, stored gender. */
  function CleanedPatients(patients: map<string, string>): map<string, Option<string>>
    requires !Collide(patients.Keys)
  {
    assert forall a, b :: a in patients && b in patients && CleanCell(Some(a)) == CleanCell(Some(b)) ==> a == b;
    map k | k in patients :: CleanCell(Some(k)) := Stored(Some(patients[k]))
  }

  function CopyRow(r: Row): PgRow
  {
    PgRow(Stored(r.patientId), Stored(Some(r.text)))
  }

  function CopyRows(rows: seq<Row>): seq<PgRow>
  {
    seq(|rows|, i requires 0 <= i < |rows| => CopyRow(rows[i]))
  }

  /** The foreign key of `conditions` and `medications`: a patient id is NULL
      or names a row of `patients`. */
  predicate ReferencesOk(rows: seq<PgRow>, patients: map<string, Option<string>>)
  {
    forall i :: 0 <= i < |rows| ==> rows[i].patientId.None? || rows[i].patientId.value in patients
  }

  /** The COPY into `conditions` or `medications`: the rows are appended
      (their `id` is a fresh SERIAL), unless one of them breaks the foreign
      key, which fails the whole COPY. */
  function CopyRowsInto(existing: seq<PgRow>, rows: seq<Row>, patients: map<string, Option<string>>): Option<seq<PgRow>>
  {
    if ReferencesOk(CopyRows(rows), patients) then Some(existing + CopyRows(rows)) else None
  }

  /** The COPY into `processed_files`, keyed by file_name. */
  function CopyFiles(existing: set<string>, files: set<string>): Option<set<string>>
  {
    if "" in files || Collide(files) || (exists f :: f in files && CleanCell(Some(f)) in existing) then None
    else Some(existing + CleanedFiles(files))
  }

  function CleanedFiles(files: set<string>): set<string>
  {
    set f | f in files :: CleanCell(Some(f))
  }

  /** A COPY that the environment breaks (lost connection, disk error) fails too. */
  function Attempt<T>(table: string, broken: set<string>, r: Option<T>): Option<T>
  {
    if table in broken then None else r
  }

  /** A failed COPY is rolled back on its own connection: the table keeps its rows. */
  function OrKeep<T>(r: Option<T>, current: T): T
  {
    if r.Some? then r.value else current
  }

  datatype CopyResult = CopyResult(ok: bool, content: Copied)

  /** The four `migrate_table_with_copy` calls, each on its own connection
      and transaction, taken in submission order; `ok` is false when any of
      them returned False. */
  function CopyAll(c: Copied, t: Tables, broken: set<string>): CopyResult
  {
    var p := Attempt("patients", broken, CopyPatients(c.patients, t));
    var patients := OrKeep(p, c.patients);
    var cs := Attempt("conditions", broken, CopyRowsInto(c.conditions, t.conditions, patients));
    var ms := Attempt("medications", broken, CopyRowsInto(c.medications, t.medications, patients));
    var fs := Attempt("processed_files", broken, CopyFiles(c.processedFiles, t.processedFiles));
    CopyResult(p.Some? && cs.Some? && ms.Some? && fs.Some?,
      Copied(patients, OrKeep(cs, c.conditions), OrKeep(ms, c.medications), OrKeep(fs, c.processedFiles)))
  }

  /** Every condition and medication row of the target keeps naming an
      existing patient across the copy step, whatever succeeds or fails. */
  lemma CopyAllKeepsReferences(c: Copied, t: Tables, broken: set<string>)
    requires ReferencesOk(c.conditions, c.patients) && ReferencesOk(c.medications, c.patients)
    ensures var r := CopyAll(c, t, broken).content;
      ReferencesOk(r.conditions, r.patients) && ReferencesOk(r.medications, r.patients)
  {
    var p := Attempt("patients", broken, CopyPatients(c.patients, t));
    var patients := OrKeep(p, c.patients);
    assert c.patients.Keys <= patients.Keys;
    var r := CopyAll(c, t, broken).content;
    forall i | 0 <= i < |r.conditions| && r.conditions[i].patientId.Some?
      ensures r.conditions[i].patientId.value in r.patients
    {
      if i < |c.conditions| {
        assert r.conditions[i] == c.conditions[i];
      }
    }
    forall i | 0 <= i < |r.medications| && r.medications[i].patientId.Some?
      ensures r.medications[i].patientId.value in r.patients
    {
      if i < |c.medications| {
        assert r.medications[i] == c.medications[i];
      }
    }
  }

  /** The source has nothing the COPY into an empty store refuses: it passes
      the validation, no two patient ids or file names clean to the same
      cell, and no file name is empty. */
  predicate Copyable(t: Tables)
  {
    ValidForPostgres(t) && !Collide(t.patients.Keys) && !Collide(t.processedFiles) && "" !in t.processedFiles
  }

  /** A value that the CSV round trip keeps as it is. */
  predicate SingleLine(s: string)
  {
    s != "" && NoLineBreaks(s)
  }

  /** A SQLite row as PostgreSQL would hold it with no cleaning at all. */
  function AsCopied(rows: seq<Row>): seq<PgRow>
  {
    seq(|rows|, i requires 0 <= i < |rows| => PgRow(rows[i].patientId, Some(rows[i].text)))
  }

  lemma SingleLineKept(s: string)
    requires SingleLine(s)
    ensures CleanCell(Some(s)) == s && Stored(Some(s)) == Some(s)
  {
    StoredRoundTrip(Some(s));
  }

  lemma CopyPatientsIntoEmptyCleans(t: Tables)
    requires |t.nullIdPatients| == 0 && "" !in t.patients && !Collide(t.patients.Keys)
    ensures CopyPatients(map[], t) == Some(CleanedPatients(t.patients))
  {
    var none: map<string, Option<string>> := map[];
    assert CopyPatients(none, t) == Some(none + CleanedPatients(t.patients));
    UnionWithEmpty(CleanedPatients(t.patients));
  }

  /** With single-line keys and genders the COPY keeps every patient row as it is. */
  lemma CleanedSingleLines(patients: map<string, string>)
    requires !Collide(patients.Keys)
    requires forall k :: k in patients ==> SingleLine(k) && SingleLine(patients[k])
    ensures forall x :: x in CleanedPatients(patients) ==> x in patients
    ensures forall k :: k in patients ==> k in CleanedPatients(patients) && CleanedPatients(patients)[k] == Some(patients[k])
  {
    forall x | x in CleanedPatients(patients) ensures x in patients {
      var k := CleanedKeyOrigin(patients, x);
      SingleLineKept(k);
    }
    forall k | k in patients
      ensures k in CleanedPatients(patients) && CleanedPatients(patients)[k] == Some(patients[k])
    {
      CleanedEntry(patients, k);
    }
  }

  lemma CleanedEntry(patients: map<string, string>, k: string)
    requires !Collide(patients.Keys)
    requires k in patients && SingleLine(k) && SingleLine(patients[k])
    ensures k in CleanedPatients(patients) && CleanedPatients(patients)[k] == Some(patients[k])
  {
    SingleLineKept(k);
    SingleLineKept(patients[k]);
  }

  /** Every key of the copied table is the cleaned form of a source key. */
  lemma CleanedKeyOrigin(patients: map<string, string>, x: string) returns (k: string)
    requires !Collide(patients.Keys)
    requires x in CleanedPatients(patients)
    ensures k in patients && CleanCell(Some(k)) == x
  {
    k :| k in patients && CleanCell(Some(k)) == x;
  }

  lemma UnionWithEmpty<K, V>(m: map<K, V>)
    ensures map[] + m == m
  {
  }

  lemma CopyRowsIntoEmpty(rows: seq<Row>, source: map<string, string>)
    requires !Collide(source.Keys)
    requires forall k :: k in source ==> SingleLine(k) && SingleLine(source[k])
    requires forall i :: 0 <= i < |rows| ==> Matches(rows[i], source)
    requires forall i :: 0 <= i < |rows| ==> SingleLine(rows[i].text)
    ensures CopyRowsInto([], rows, CleanedPatients(source)) == Some(AsCopied(rows))
  {
    forall i | 0 <= i < |rows|
      ensures CopyRow(rows[i]) == PgRow(rows[i].patientId, Some(rows[i].text))
      ensures rows[i].patientId.value in CleanedPatients(source)
    {
      var k := rows[i].patientId.value;
      CleanedEntry(source, k);
      SingleLineKept(k);
      SingleLineKept(rows[i].text);
    }
    assert CopyRows(rows) == AsCopied(rows);
    assert ReferencesOk(CopyRows(rows), CleanedPatients(source));
    assert [] + AsCopied(rows) == AsCopied(rows);
  }

  lemma CopyFilesIntoEmpty(files: set<string>)
    requires !Collide(files) && "" !in files
    requires forall f :: f in files ==> SingleLine(f)
    ensures CopyFiles({}, files) == Some(files)
  {
    forall f | f in files ensures CleanCell(Some(f)) == f {
      SingleLineKept(f);
    }
    var fs := CopyFiles({}, files);
    assert fs.value == files;
  }

  /** The four COPYs succeed when each of them does on its own. */
  lemma CopyAllSucceeds(c: Copied, t: Tables, p: map<string, Option<string>>, cs: seq<PgRow>, ms: seq<PgRow>, fs: set<string>)
    requires CopyPatients(c.patients, t) == Some(p)
    requires CopyRowsInto(c.conditions, t.conditions, p) == Some(cs)
    requires CopyRowsInto(c.medications, t.medications, p) == Some(ms)
    requires CopyFiles(c.processedFiles, t.processedFiles) == Some(fs)
    ensures CopyAll(c, t, {}) == CopyResult(true, Copied(p, cs, ms, fs))
  {
  }

  /** Round trip of the copy step: into an empty store every COPY succeeds,
      and when every value is a non-empty single line the PostgreSQL tables
      hold exactly the SQLite rows (the patients table by `CleanedSingleLines`). */
  lemma CopyIntoEmptyRoundTrip(t: Tables)
    requires Copyable(t)
    requires forall k :: k in t.patients ==> SingleLine(k) && SingleLine(t.patients[k])
    requires forall i :: 0 <= i < |t.conditions| ==> SingleLine(t.conditions[i].text)
    requires forall i :: 0 <= i < |t.medications| ==> SingleLine(t.medications[i].text)
    requires forall f :: f in t.processedFiles ==> SingleLine(f)
    ensures CopyAll(EmptyCopied, t, {}) ==
      CopyResult(true, Copied(CleanedPatients(t.patients), AsCopied(t.conditions), AsCopied(t.medications), t.processedFiles))
  {
    CopyPatientsIntoEmptyCleans(t);
    CopyRowsIntoEmpty(t.conditions, t.patients);
    CopyRowsIntoEmpty(t.medications, t.patients);
    CopyFilesIntoEmpty(t.processedFiles);
    CopyAllSucceeds(EmptyCopied, t, CleanedPatients(t.patients), AsCopied(t.conditions), AsCopied(t.medications), t.processedFiles);
  }



  // ----- check_migration_status -----

  const RequiredTables: set<string> := {"patients", "conditions", "medications", "processed_files"}
  const AggregateTables: set<string> := {"aggregated_conditions", "aggregated_medications", "gender_stats"}

  /** `SELECT EXISTS(SELECT 1 FROM <table> LIMIT 1)` for a required table. */
  predicate HasRows(c: Copied, table: string)
  {
    if table == "patients" then |c.patients| > 0
    else if table == "conditions" then |c.conditions| > 0
    else if table == "medications" then |c.medications| > 0
    else if table == "processed_files" then |c.processedFiles| > 0
    else false
  }

  /** `StatusRaises`: the connection could not be opened, so `conn.cursor()`
      fails on None with an error the handler does not catch. */
  datatype Status = StatusRaises | Status(migrated: bool)

  /** `check_migration_status`: the schema exists, the four required tables
      exist in it and each holds a row. A database error during the queries
      reads as not migrated. */
  function CheckMigrationStatus(reachable: bool, queryFails: bool, s: Secondary): (r: Status)
    ensures r.StatusRaises? <==> !reachable
    ensures r == Status(true) <==>
      && reachable && !queryFails && s.schemaExists && RequiredTables <= s.tables
      && |s.content.patients| > 0 && |s.content.conditions| > 0
      && |s.content.medications| > 0 && |s.content.processedFiles| > 0
  {
    if !reachable then StatusRaises
    else if queryFails then Status(false)
    else if !s.schemaExists then Status(false)
    else if !(RequiredTables <= s.tables) then Status(false)
    else Status(forall table :: table in RequiredTables ==> HasRows(s.content, table))
  }

  // ----- migrate_aggregated_data_to_postgres -----

  /** COUNT(*) of the rows whose label is `l`. */
  function CountOf(labels: seq<string>, l: string): nat
  {
    if labels == [] then 0
    else CountOf(labels[..|labels| - 1], l) + (if labels[|labels| - 1] == l then 1 else 0)
  }

  /** A label has a positive count exactly when some row carries it. */
  lemma {:induction false} CountOfPositive(labels: seq<string>, l: string)
    ensures CountOf(labels, l) > 0 <==> l in labels
  {
    if labels != [] {
      var init := labels[..|labels| - 1];
      CountOfPositive(init, l);
      assert labels == init + [labels[|labels| - 1]];
    }
  }

  /** The label column of a table. */
  function Texts(rows: seq<Row>): seq<string>
  {
    seq(|rows|, i requires 0 <= i < |rows| => rows[i].text)
  }

  /** `GROUP BY label` with COUNT(*): one group per distinct label, here in
      order of first appearance. */
  function Grouped(labels: seq<string>): seq<(string, nat)>
  {
    var d := Catalog.Dedup(labels);
    seq(|d|, i requires 0 <= i < |d| => (d[i], CountOf(labels, d[i])))
  }

  predicate DistinctLabels(groups: seq<(string, nat)>)
  {
    forall i, j :: 0 <= i < j < |groups| ==> groups[i].0 != groups[j].0
  }

  /** One group per distinct label, each with that label's count. */
  lemma GroupedSpec(labels: seq<string>)
    ensures DistinctLabels(Grouped(labels))
    ensures forall g :: g in Grouped(labels) ==> g.0 in labels && g.1 == CountOf(labels, g.0)
    ensures forall l :: l in labels ==> (l, CountOf(labels, l)) in Grouped(labels)
  {
    var d := Catalog.Dedup(labels);
    var g := Grouped(labels);
    forall l | l in labels ensures (l, CountOf(labels, l)) in g {
      var i :| 0 <= i < |d| && d[i] == l;
      assert g[i] == (l, CountOf(labels, l));
    }
  }

  /** The index of the first group with the largest count. */
  function ArgMax(groups: seq<(string, nat)>): (i: nat)
    requires groups != []
    ensures i < |groups|
    ensures forall j :: 0 <= j < |groups| ==> groups[j].1 <= groups[i].1
  {
    if |groups| == 1 then 0
    else
      var i := ArgMax(groups[..|groups| - 1]);
      assert forall j :: 0 <= j < |groups| - 1 ==> groups[..|groups| - 1][j] == groups[j];
      if groups[|groups| - 1].1 > groups[i].1 then |groups| - 1 else i
  }

  function Without<T>(s: seq<T>, i: nat): seq<T>
    requires i < |s|
  {
    s[..i] + s[i + 1..]
  }

  /** `ORDER BY count DESC LIMIT k`: the groups with the largest counts,
      largest first. Among equal counts the earlier group is taken first. */
  function TopK(groups: seq<(string, nat)>, k: nat): seq<(string, nat)>
    decreases k
  {
    if k == 0 || groups == [] then []
    else
      var i := ArgMax(groups);
      [groups[i]] + TopK(Without(groups, i), k - 1)
  }

  lemma WithoutMembers(groups: seq<(string, nat)>, i: nat)
    requires i < |groups|
    ensures |Without(groups, i)| == |groups| - 1
    ensures forall x :: x in Without(groups, i) ==> x in groups
    ensures forall x :: x in groups && x != groups[i] ==> x in Without(groups, i)
  {
    var rest := Without(groups, i);
    forall x | x in groups && x != groups[i] ensures x in rest {
      var j :| 0 <= j < |groups| && groups[j] == x;
      if j < i { assert rest[j] == x; } else { assert rest[j - 1] == x; }
    }
  }

  lemma {:induction false} TopKLength(groups: seq<(string, nat)>, k: nat)
    ensures |TopK(groups, k)| == (if k < |groups| then k else |groups|)
    decreases k
  {
    if k != 0 && groups != [] {
      var i := ArgMax(groups);
      WithoutMembers(groups, i);
      TopKLength(Without(groups, i), k - 1);
    }
  }

  lemma {:induction false} TopKMembers(groups: seq<(string, nat)>, k: nat)
    ensures forall x :: x in TopK(groups, k) ==> x in groups
    decreases k
  {
    if k != 0 && groups != [] {
      var i := ArgMax(groups);
      WithoutMembers(groups, i);
      TopKMembers(Without(groups, i), k - 1);
    }
  }

  lemma {:induction false} TopKSorted(groups: seq<(string, nat)>, k: nat)
    ensures forall a, b :: 0 <= a < b < |TopK(groups, k)| ==> TopK(groups, k)[a].1 >= TopK(groups, k)[b].1
    decreases k
  {
    if k != 0 && groups != [] {
      var i := ArgMax(groups);
      var rest := Without(groups, i);
      var top := TopK(groups, k);
      WithoutMembers(groups, i);
      TopKSorted(rest, k - 1);
      TopKMembers(rest, k - 1);
      assert top == [groups[i]] + TopK(rest, k - 1);
      forall a, b | 0 <= a < b < |top| ensures top[a].1 >= top[b].1 {
        if a == 0 { assert top[b] in groups; }
      }
    }
  }

  lemma {:induction false} TopKOmitted(groups: seq<(string, nat)>, k: nat)
    ensures forall x, j :: x in groups && x !in TopK(groups, k) && 0 <= j < |TopK(groups, k)| ==>
              x.1 <= TopK(groups, k)[j].1
    decreases k
  {
    if k != 0 && groups != [] {
      var i := ArgMax(groups);
      var rest := Without(groups, i);
      var top := TopK(groups, k);
      WithoutMembers(groups, i);
      TopKOmitted(rest, k - 1);
      assert top == [groups[i]] + TopK(rest, k - 1);
      forall x, j | x in groups && x !in top && 0 <= j < |top| ensures x.1 <= top[j].1 {
        if j > 0 {
          assert x in rest && x !in TopK(rest, k - 1);
          assert top[j] == TopK(rest, k - 1)[j - 1];
        }
      }
    }
  }

  lemma {:induction false} TopKAll(groups: seq<(string, nat)>, k: nat)
    requires |groups| <= k
    ensures forall x :: x in groups ==> x in TopK(groups, k)
    decreases k
  {
    if k != 0 && groups != [] {
      var i := ArgMax(groups);
      WithoutMembers(groups, i);
      TopKAll(Without(groups, i), k - 1);
    }
  }

  lemma {:induction false} TopKDistinct(groups: seq<(string, nat)>, k: nat)
    requires DistinctLabels(groups)
    ensures DistinctLabels(TopK(groups, k))
    decreases k
  {
    if k != 0 && groups != [] {
      var i := ArgMax(groups);
      var rest := Without(groups, i);
      var tail := TopK(rest, k - 1);
      var top := TopK(groups, k);
      assert forall j :: 0 <= j < |rest| ==> rest[j] == groups[if j < i then j else j + 1];
      assert DistinctLabels(rest) by {
        forall a, b | 0 <= a < b < |rest| ensures rest[a].0 != rest[b].0 {
          var a', b' := if a < i then a else a + 1, if b < i then b else b + 1;
          assert rest[a] == groups[a'] && rest[b] == groups[b'];
        }
      }
      TopKDistinct(rest, k - 1);
      TopKMembers(rest, k - 1);
      forall b | 0 <= b < |tail| ensures tail[b].0 != groups[i].0 {
        assert tail[b] in rest;
        var j :| 0 <= j < |rest| && rest[j] == tail[b];
        var j' := if j < i then j else j + 1;
        assert rest[j] == groups[j'];
      }
      assert top == [groups[i]] + tail;
      forall a, b | 0 <= a < b < |top| ensures top[a].0 != top[b].0 {
        if a == 0 { assert top[b] == tail[b - 1]; } else { assert top[a] == tail[a - 1] && top[b] == tail[b - 1]; }
      }
    }
  }

  /** The fetched rows as the upserts leave them: label to count, a later
      row overwriting an earlier one with the same label. */
  function AsMap(groups: seq<(string, nat)>): map<string, nat>
  {
    if groups == [] then map[]
    else AsMap(groups[..|groups| - 1])[groups[|groups| - 1].0 := groups[|groups| - 1].1]
  }

  /** The map has one key per label of the rows, at most as many as rows,
      and for rows with distinct labels each label maps to its row's count. */
  lemma AsMapSpec(groups: seq<(string, nat)>)
    ensures |AsMap(groups)| <= |groups|
    ensures forall l :: l in AsMap(groups) ==> exists i :: 0 <= i < |groups| && groups[i].0 == l
    ensures DistinctLabels(groups) ==>
              forall i :: 0 <= i < |groups| ==> groups[i].0 in AsMap(groups) && AsMap(groups)[groups[i].0] == groups[i].1
  {
    AsMapSize(groups);
    AsMapKeys(groups);
    if DistinctLabels(groups) {
      AsMapValues(groups);
    }
  }

  lemma {:induction false} AsMapSize(groups: seq<(string, nat)>)
    ensures |AsMap(groups)| <= |groups|
  {
    if groups != [] {
      var init := groups[..|groups| - 1];
      AsMapSize(init);
      assert AsMap(groups).Keys == AsMap(init).Keys + {groups[|groups| - 1].0};
    }
  }

  lemma {:induction false} AsMapKeys(groups: seq<(string, nat)>)
    ensures forall l :: l in AsMap(groups) ==> exists i :: 0 <= i < |groups| && groups[i].0 == l
  {
    if groups != [] {
      var init := groups[..|groups| - 1];
      var last := groups[|groups| - 1];
      AsMapKeys(init);
      forall l | l in AsMap(groups) ensures exists i :: 0 <= i < |groups| && groups[i].0 == l {
        if l != last.0 {
          assert l in AsMap(init);
          var i :| 0 <= i < |init| && init[i].0 == l;
          assert groups[i] == init[i];
        } else {
          assert groups[|groups| - 1].0 == l;
        }
      }
    }
  }

  lemma {:induction false} AsMapValues(groups: seq<(string, nat)>)
    requires DistinctLabels(groups)
    ensures forall i :: 0 <= i < |groups| ==> groups[i].0 in AsMap(groups) && AsMap(groups)[groups[i].0] == groups[i].1
  {
    if groups != [] {
      var init := groups[..|groups| - 1];
      assert DistinctLabels(init);
      AsMapValues(init);
      forall i | 0 <= i < |groups| ensures groups[i].0 in AsMap(groups) && AsMap(groups)[groups[i].0] == groups[i].1 {
        if i < |groups| - 1 { assert groups[i] == init[i]; }
      }
    }
  }

  /** The condition or medication aggregate: the ten most frequent labels
      with their counts. */
  function TopTen(rows: seq<Row>): map<string, nat>
  {
    AsMap(TopK(Grouped(Texts(rows)), 10))
  }

  lemma TopTenBound(rows: seq<Row>)
    ensures |TopTen(rows)| <= 10
  {
    var top := TopK(Grouped(Texts(rows)), 10);
    TopKLength(Grouped(Texts(rows)), 10);
    AsMapSpec(top);
  }

  lemma TopTenCounts(rows: seq<Row>)
    ensures forall l :: l in TopTen(rows) ==> l in Texts(rows) && TopTen(rows)[l] == CountOf(Texts(rows), l)
  {
    var labels := Texts(rows);
    var groups := Grouped(labels);
    var top := TopK(groups, 10);
    GroupedSpec(labels);
    TopKMembers(groups, 10);
    TopKDistinct(groups, 10);
    AsMapSpec(top);
    forall l | l in TopTen(rows) ensures l in labels && TopTen(rows)[l] == CountOf(labels, l) {
      var i :| 0 <= i < |top| && top[i].0 == l;
      assert top[i] in groups;
    }
  }

  lemma TopTenOmitted(rows: seq<Row>)
    ensures forall l, kept :: l in Texts(rows) && l !in TopTen(rows) && kept in TopTen(rows) ==>
              CountOf(Texts(rows), l) <= TopTen(rows)[kept]
  {
    var labels := Texts(rows);
    var groups := Grouped(labels);
    var top := TopK(groups, 10);
    GroupedSpec(labels);
    TopKOmitted(groups, 10);
    TopKDistinct(groups, 10);
    AsMapSpec(top);
    forall l, kept | l in labels && l !in TopTen(rows) && kept in TopTen(rows)
      ensures CountOf(labels, l) <= TopTen(rows)[kept]
    {
      var j :| 0 <= j < |top| && top[j].0 == kept;
      var x := (l, CountOf(labels, l));
      assert x in groups;
    }
  }

  lemma TopTenAll(rows: seq<Row>)
    requires |Catalog.Dedup(Texts(rows))| <= 10
    ensures forall l :: l in Texts(rows) ==> l in TopTen(rows)
  {
    var labels := Texts(rows);
    var groups := Grouped(labels);
    var top := TopK(groups, 10);
    GroupedSpec(labels);
    TopKAll(groups, 10);
    TopKDistinct(groups, 10);
    AsMapSpec(top);
    forall l | l in labels ensures l in TopTen(rows) {
      var x := (l, CountOf(labels, l));
      var a :| 0 <= a < |top| && top[a] == x;
    }
  }

  /** The genders of all patient rows, including those with a NULL id. */
  function Genders(t: Tables): set<string>
  {
    t.patients.Values + set g | g in t.nullIdPatients
  }

  /** COUNT(*) of the patient rows with gender `g`. */
  function GenderCount(t: Tables, g: string): nat
  {
    |set k | k in t.patients && t.patients[k] == g| + CountOf(t.nullIdPatients, g)
  }

  /** `SELECT gender, COUNT(*) FROM patients GROUP BY gender`. */
  function GenderStats(t: Tables): map<string, nat>
  {
    map g | g in Genders(t) :: GenderCount(t, g)
  }

  /** Every gender of a patient row has a group, and every group counts at
      least one row. */
  lemma GenderStatsSpec(t: Tables)
    ensures forall k :: k in t.patients ==> t.patients[k] in GenderStats(t)
    ensures forall i :: 0 <= i < |t.nullIdPatients| ==> t.nullIdPatients[i] in GenderStats(t)
    ensures forall g :: g in GenderStats(t) ==> GenderStats(t)[g] > 0
  {
    forall g | g in GenderStats(t) ensures GenderStats(t)[g] > 0 {
      var holders := set k | k in t.patients && t.patients[k] == g;
      if g in t.patients.Values {
        var k :| k in t.patients && t.patients[k] == g;
        assert k in holders;
        assert |holders| >= |{k}|;
      } else {
        assert g in set g | g in t.nullIdPatients;
        CountOfPositive(t.nullIdPatients, g);
      }
    }
  }

  /** The upsert loop: `INSERT ... ON CONFLICT (label) DO UPDATE SET count =
      EXCLUDED.count` for each fetched row. The rows have distinct labels, so
      the order in which they are taken does not matter. */
  method UpsertAll(table: map<string, nat>, rows: map<string, nat>) returns (updated: map<string, nat>)
    ensures updated == table + rows
  {
    updated := table;
    var pending := rows.Keys;
    while pending != {}
      invariant pending <= rows.Keys
      invariant updated == table + (map l | l in rows.Keys - pending :: rows[l])
      decreases |pending|
    {
      var l :| l in pending;
      updated := updated[l := rows[l]];
      pending := pending - {l};
    }
    assert (map l | l in rows.Keys - pending :: rows[l]) == rows;
  }

  /** An upsert writes the count of each fetched label and leaves every
      other row of the table as it was; a second identical upsert changes
      nothing. */
  lemma UpsertOnlyTouchesItsKeys(table: map<string, nat>, rows: map<string, nat>)
    ensures forall l :: l in rows ==> (table + rows)[l] == rows[l]
    ensures forall l :: l !in rows ==> (l in table + rows) == (l in table)
    ensures forall l :: l !in rows && l in table ==> (table + rows)[l] == table[l]
    ensures (table + rows) + rows == table + rows
  {
    assert forall l :: l in (table + rows) + rows ==> ((table + rows) + rows)[l] == (table + rows)[l];
  }

  /** `create_postgres_schema`: the schema and every table exist afterwards;
      existing tables keep their rows. */
  function CreateSchema(s: Secondary): Secondary
  {
    s.(schemaExists := true, tables := s.tables + RequiredTables + AggregateTables)
  }

  /** `migrate_aggregated_data_to_postgres`: nothing happens without a
      connection; otherwise the schema is ensured and the three aggregates are
      upserted and committed together. */
  function RefreshAggregates(s: Secondary, t: Tables, reached: bool): Secondary
  {
    if !reached then s
    else
      var c := CreateSchema(s);
      c.(aggregates := Aggregates(
        c.aggregates.conditions + TopTen(t.conditions),
        c.aggregates.medications + TopTen(t.medications),
        c.aggregates.genders + GenderStats(t)))
  }

  /** Refreshing twice from the same source is refreshing once; a label
      that is no longer among the ten most frequent keeps its old row. */
  lemma RefreshAggregatesIdempotent(s: Secondary, t: Tables, reached: bool)
    ensures RefreshAggregates(RefreshAggregates(s, t, reached), t, reached) == RefreshAggregates(s, t, reached)
    ensures var a := RefreshAggregates(s, t, reached).aggregates;
      forall l :: l in s.aggregates.conditions && l !in TopTen(t.conditions) ==>
        l in a.conditions && a.conditions[l] == s.aggregates.conditions[l]
    ensures RefreshAggregates(s, t, reached).content == s.content
  {
    if reached {
      var once := RefreshAggregates(s, t, reached);
      UpsertOnlyTouchesItsKeys(CreateSchema(s).aggregates.conditions, TopTen(t.conditions));
      UpsertOnlyTouchesItsKeys(CreateSchema(s).aggregates.medications, TopTen(t.medications));
      UpsertOnlyTouchesItsKeys(CreateSchema(s).aggregates.genders, GenderStats(t));
      assert CreateSchema(once) == once;
    }
  }

  // ----- migrate_to_postgres -----

  /** What the run meets outside the SQLite content: whether PostgreSQL
      connections open, whether a query of the completion probe fails,
      whether SQLite opens, the answer to the confirmation prompt (after
      `.strip().upper()`), the tables whose COPY fails for reasons outside
      the data, and whether the aggregate refresh gets its connection. */
  datatype Environment = Environment(
    reachable: bool,
    statusQueryFails: bool,
    sqliteOpens: bool,
    confirm: string,
    broken: set<string>,
    aggregatesReached: bool)

  datatype MigrationEnd = Raised | AlreadyMigrated | ConnectionFailed | Rejected | Cancelled | CopyFailed | Migrated

  datatype Run = Run(end: MigrationEnd, after: Secondary)

  /** `migrate_to_postgres` once the completion probe has answered. */
  function MigrateFrom(status: Status, s: Secondary, t: Tables, env: Environment): Run
  {
    match status
    case StatusRaises => Run(Raised, s)
    case Status(done) =>
      if done then Run(AlreadyMigrated, s)
      else if !env.sqliteOpens then Run(ConnectionFailed, s)
      else if !ValidForPostgres(t) then Run(Rejected, s)
      else if env.confirm != "S" then Run(Cancelled, s)
      else
        var created := CreateSchema(s);
        var copy := CopyAll(created.content, t, env.broken);
        var copied := created.(content := copy.content);
        if !copy.ok then Run(CopyFailed, copied)
        else Run(Migrated, RefreshAggregates(copied, t, env.aggregatesReached))
  }

  /** `migrate_to_postgres`. Every early return leaves the PostgreSQL store
      untouched; the copy step is reached exactly when the probe says not
      migrated, SQLite opens, the validation accepts and the user confirms. */
  function Migrate(s: Secondary, t: Tables, env: Environment): (r: Run)
    ensures !(r.end.CopyFailed? || r.end.Migrated?) ==> r.after == s
    ensures (r.end.CopyFailed? || r.end.Migrated?) <==>
      && CheckMigrationStatus(env.reachable, env.statusQueryFails, s) == Status(false)
      && env.sqliteOpens && ValidForPostgres(t) && env.confirm == "S"
    ensures r.end.AlreadyMigrated? <==> CheckMigrationStatus(env.reachable, env.statusQueryFails, s) == Status(true)
    ensures r.end.Rejected? ==> !ValidForPostgres(t)
    ensures r.end.Raised? <==> !env.reachable
  {
    MigrateFrom(CheckMigrationStatus(env.reachable, env.statusQueryFails, s), s, t, env)
  }

  // ----- Properties of a whole run -----

  /** Every copied row names a patient the COPY into `patients` stored. */
  lemma CopiedRowsReferToCleaned(rows: seq<Row>, patients: map<string, string>)
    requires !Collide(patients.Keys) && "" !in patients
    requires forall i :: 0 <= i < |rows| ==> Matches(rows[i], patients)
    ensures ReferencesOk(CopyRows(rows), CleanedPatients(patients))
  {
    forall i | 0 <= i < |rows|
      ensures CopyRows(rows)[i].patientId.value in CleanedPatients(patients)
    {
      var k := rows[i].patientId.value;
      StoredRoundTrip(Some(k));
      assert CopyRows(rows)[i].patientId == Some(CleanCell(Some(k)));
    }
  }

  /** Into an empty store, every COPY of a source that passes the checks
      succeeds and the tables hold the cleaned source rows. */
  lemma CopyIntoEmptySucceeds(t: Tables)
    requires Copyable(t)
    ensures CopyAll(EmptyCopied, t, {}) ==
      CopyResult(true, Copied(CleanedPatients(t.patients), CopyRows(t.conditions), CopyRows(t.medications), CleanedFiles(t.processedFiles)))
  {
    CopyPatientsIntoEmptyCleans(t);
    CopiedRowsReferToCleaned(t.conditions, t.patients);
    CopiedRowsReferToCleaned(t.medications, t.patients);
    assert [] + CopyRows(t.conditions) == CopyRows(t.conditions);
    assert [] + CopyRows(t.medications) == CopyRows(t.medications);
    assert {} + CleanedFiles(t.processedFiles) == CleanedFiles(t.processedFiles);
    CopyAllSucceeds(EmptyCopied, t, CleanedPatients(t.patients), CopyRows(t.conditions), CopyRows(t.medications), CleanedFiles(t.processedFiles));
  }

  lemma CleanedNonEmpty(patients: map<string, string>, files: set<string>)
    requires !Collide(patients.Keys)
    ensures |patients| > 0 ==> |CleanedPatients(patients)| > 0
    ensures |files| > 0 ==> |CleanedFiles(files)| > 0
  {
    if |patients| > 0 {
      var k :| k in patients;
      assert CleanCell(Some(k)) in CleanedPatients(patients);
    }
    if |files| > 0 {
      var f :| f in files;
      assert CleanCell(Some(f)) in CleanedFiles(files);
    }
  }

  /** A run that reaches the copy step with nothing broken. */
  predicate Proceeds(env: Environment)
  {
    env.reachable && !env.statusQueryFails && env.sqliteOpens && env.confirm == "S" && env.broken == {}
  }

  /** The first migration into an empty PostgreSQL store: it completes, the
      four tables hold the cleaned SQLite content, and the aggregates are
      those of the source when the refresh gets its connection. */
  lemma MigrateIntoEmpty(t: Tables, env: Environment)
    requires Copyable(t) && Proceeds(env)
    ensures var r := Migrate(EmptySecondary, t, env);
      && r.end == Migrated
      && r.after.schemaExists && RequiredTables + AggregateTables <= r.after.tables
      && r.after.content == Copied(CleanedPatients(t.patients), CopyRows(t.conditions), CopyRows(t.medications), CleanedFiles(t.processedFiles))
      && r.after.aggregates == (if env.aggregatesReached then Aggregates(TopTen(t.conditions), TopTen(t.medications), GenderStats(t))
                                else Aggregates(map[], map[], map[]))
  {
    CopyIntoEmptySucceeds(t);
    UnionWithEmpty(TopTen(t.conditions));
    UnionWithEmpty(TopTen(t.medications));
    UnionWithEmpty(GenderStats(t));
  }

  /** Once every source table has rows, a second run after a completed
      migration finds it migrated and changes nothing. */
  lemma MigrateAgainIsNoOp(t: Tables, env: Environment, again: Environment)
    requires Copyable(t) && Proceeds(env)
    requires |t.patients| > 0 && |t.conditions| > 0 && |t.medications| > 0 && |t.processedFiles| > 0
    requires again.reachable && !again.statusQueryFails
    ensures var first := Migrate(EmptySecondary, t, env);
      Migrate(first.after, t, again) == Run(AlreadyMigrated, first.after)
  {
    MigrateIntoEmpty(t, env);
    CleanedNonEmpty(t.patients, t.processedFiles);
  }

  /** As written: the completion probe demands rows in all four tables, so
      when the source has no medications the store never reads as migrated
      and a second run with the same answers copies again. The COPY into
      `patients` fails on the existing keys, but the condition rows are
      appended a second time and stay. */
  lemma RerunAfterEmptyTableDuplicatesRows(t: Tables, env: Environment)
    requires Copyable(t) && Proceeds(env)
    requires |t.conditions| > 0 && |t.medications| == 0
    ensures var first := Migrate(EmptySecondary, t, env);
      var second := Migrate(first.after, t, env);
      && first.end == Migrated
      && second.end == CopyFailed
      && second.after.content.conditions == CopyRows(t.conditions) + CopyRows(t.conditions)
      && second.after.content.patients == first.after.content.patients
  {
    MigrateIntoEmpty(t, env);
    var first := Migrate(EmptySecondary, t, env);
    var c := first.after.content;
    var k := t.conditions[0].patientId.value;
    assert CleanCell(Some(k)) in c.patients by {
      assert Matches(t.conditions[0], t.patients);
    }
    PatientsCopyConflicts(c.patients, t, k);
    CopiedRowsReferToCleaned(t.conditions, t.patients);
    CopyAfterPatientsConflict(c, t);
    assert CheckMigrationStatus(env.reachable, env.statusQueryFails, first.after) == Status(false);
    assert CreateSchema(first.after).content == c;
  }

  lemma PatientsCopyConflicts(existing: map<string, Option<string>>, t: Tables, k: string)
    requires k in t.patients && CleanCell(Some(k)) in existing
    ensures CopyPatients(existing, t) == None
  {
  }

  /** When the COPY into `patients` fails, the conditions COPY still checks
      its rows against the patients already stored and appends them. */
  lemma CopyAfterPatientsConflict(c: Copied, t: Tables)
    requires CopyPatients(c.patients, t) == None
    requires c.medications == [] && t.medications == []
    requires ReferencesOk(CopyRows(t.conditions), c.patients)
    ensures !CopyAll(c, t, {}).ok
    ensures CopyAll(c, t, {}).content.conditions == c.conditions + CopyRows(t.conditions)
    ensures CopyAll(c, t, {}).content.patients == c.patients
  {
  }

  /** The intended completion probe: a required table counts as migrated
      when it has rows or when its source table is empty. */
  function CorrectedStatus(reachable: bool, queryFails: bool, s: Secondary, t: Tables): (r: Status)
    ensures r.StatusRaises? <==> !reachable
    ensures r == Status(true) <==>
      && reachable && !queryFails && s.schemaExists && RequiredTables <= s.tables
      && (|s.content.patients| > 0 || |t.patients| + |t.nullIdPatients| == 0)
      && (|s.content.conditions| > 0 || |t.conditions| == 0)
      && (|s.content.medications| > 0 || |t.medications| == 0)
      && (|s.content.processedFiles| > 0 || |t.processedFiles| == 0)
  {
    if !reachable then StatusRaises
    else if queryFails || !s.schemaExists || !(RequiredTables <= s.tables) then Status(false)
    else Status(
      && (HasRows(s.content, "patients") || |t.patients| + |t.nullIdPatients| == 0)
      && (HasRows(s.content, "conditions") || |t.conditions| == 0)
      && (HasRows(s.content, "medications") || |t.medications| == 0)
      && (HasRows(s.content, "processed_files") || |t.processedFiles| == 0))
  }

  /** The corrected probe answers like the original one whenever every
      source table has rows. */
  lemma CorrectedStatusAgrees(reachable: bool, queryFails: bool, s: Secondary, t: Tables)
    requires |t.patients| > 0 && |t.conditions| > 0 && |t.medications| > 0 && |t.processedFiles| > 0
    ensures CorrectedStatus(reachable, queryFails, s, t) == CheckMigrationStatus(reachable, queryFails, s)
  {
  }

  /** `migrate_to_postgres` with the corrected probe. */
  function MigrateCorrected(s: Secondary, t: Tables, env: Environment): (r: Run)
    ensures !(r.end.CopyFailed? || r.end.Migrated?) ==> r.after == s
    ensures r.end.AlreadyMigrated? <==> CorrectedStatus(env.reachable, env.statusQueryFails, s, t) == Status(true)
  {
    MigrateFrom(CorrectedStatus(env.reachable, env.statusQueryFails, s, t), s, t, env)
  }

  /** With the corrected probe a completed migration is never repeated,
      whichever source tables are empty. */
  lemma CorrectedRerunIsNoOp(t: Tables, env: Environment, again: Environment)
    requires Copyable(t) && Proceeds(env)
    requires again.reachable && !again.statusQueryFails
    ensures var first := MigrateCorrected(EmptySecondary, t, env);
      && first.end == Migrated
      && MigrateCorrected(first.after, t, again) == Run(AlreadyMigrated, first.after)
  {
    MigrateIntoEmpty(t, env);
    assert MigrateCorrected(EmptySecondary, t, env) == Migrate(EmptySecondary, t, env);
    CleanedNonEmpty(t.patients, t.processedFiles);
    if |t.conditions| > 0 {
      assert |CopyRows(t.conditions)| > 0;
    }
    if |t.medications| > 0 {
      assert |CopyRows(t.medications)| > 0;
    }
  }

  // ----- The PostgreSQL store, updated in place -----

  /** The PostgreSQL database the migration writes to. */
  class SecondaryStore {
    var schemaExists: bool
    var tables: set<string>
    var content: Copied
    var aggregates: Aggregates

    function Current(): Secondary
      reads this
    {
      Secondary(schemaExists, tables, content, aggregates)
    }

    constructor(s: Secondary)
      ensures Current() == s
    {
      schemaExists := s.schemaExists;
      tables := s.tables;
      content := s.content;
      aggregates := s.aggregates;
    }

    /** `create_postgres_schema`: `CREATE ... IF NOT EXISTS` for the schema,
        the seven tables and their indexes, then a commit. */
    method CreatePostgresSchema()
      modifies this
      ensures Current() == CreateSchema(old(Current()))
    {
      schemaExists := true;
      tables := tables + RequiredTables + AggregateTables;
    }

    /** `migrate_aggregated_data_to_postgres`: the three upserts, committed
        together. */
    method MigrateAggregatedData(t: Tables, reached: bool)
      modifies this
      ensures Current() == RefreshAggregates(old(Current()), t, reached)
    {
      if !reached {
        return;
      }
      CreatePostgresSchema();
      var conditions := UpsertAll(aggregates.conditions, TopTen(t.conditions));
      var medications := UpsertAll(aggregates.medications, TopTen(t.medications));
      var genders := UpsertAll(aggregates.genders, GenderStats(t));
      aggregates := Aggregates(conditions, medications, genders);
    }

    /** `migrate_to_postgres`: probe, validation, confirmation, schema, the
        four COPYs, then the aggregates. */
    method MigrateToPostgres(t: Tables, env: Environment) returns (end: MigrationEnd)
      modifies this
      ensures Run(end, Current()) == Migrate(old(Current()), t, env)
    {
      var status := CheckMigrationStatus(env.reachable, env.statusQueryFails, Current());
      if status.StatusRaises? {
        return Raised;
      }
      if status.migrated {
        return AlreadyMigrated;
      }
      if !env.sqliteOpens {
        return ConnectionFailed;
      }
      var valid := ValidateDataForPostgres(t);
      if !valid {
        return Rejected;
      }
      if env.confirm != "S" {
        return Cancelled;
      }
      CreatePostgresSchema();
      var copy := CopyAll(content, t, env.broken);
      content := copy.content;
      if !copy.ok {
        return CopyFailed;
      }
      MigrateAggregatedData(t, env.aggregatesReached);
      end := Migrated;
    }
  }
}

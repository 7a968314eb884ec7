/** Ingestion straight into PostgreSQL, as etl/loaderpost.py does it: labels
    are stored as read, without `clean_text`; the ledger write is not guarded;
    `process_files` never rolls back; the sentinel is not put back. Both
    workers share one connection; they are run one after the other. */
module PostgresIngest {
  import opened Base
  import opened Fhir
  import opened Store
  import Catalog
  import SqliteIngest

  // ----- Reading one bundle -----

  /** `resource.get(field, {}).get('text', '')` followed by `if text:`; None
      when `.get` raises. A JSON null text is falsy and skipped like ''. */
  function PostReadText(l: Label): Option<string>
  {
    match l
    case Absent => Some("")
    case Null => Some("")
    case Text(s) => Some(s)
    case Malformed => None
  }

  predicate PostEntryRaises(e: Entry)
  {
    match e
    case BadEntry => true
    case Entry(Condition(l)) => PostReadText(l).None?
    case Entry(MedicationRequest(l)) => PostReadText(l).None?
    case Entry(_) => false
  }

  /** The rows the entry loop has inserted, and whether it stopped on a raise;
      the rows inserted before the raise stay in the open transaction. */
  datatype Partial = Partial(conditions: seq<string>, medications: seq<string>, raised: bool)

  function PostStep(acc: Partial, e: Entry): Partial
  {
    if acc.raised then acc
    else match e
      case BadEntry => acc.(raised := true)
      case Entry(Condition(l)) =>
        (match PostReadText(l)
         case None => acc.(raised := true)
         case Some(t) => if t == "" then acc else acc.(conditions := acc.conditions + [t]))
      case Entry(MedicationRequest(l)) =>
        (match PostReadText(l)
         case None => acc.(raised := true)
         case Some(t) => if t == "" then acc else acc.(medications := acc.medications + [t]))
      case Entry(_) => acc
  }

  function PostExtract(entries: seq<Entry>): Partial
  {
    if entries == [] then Partial([], [], false)
    else PostStep(PostExtract(entries[..|entries| - 1]), entries[|entries| - 1])
  }

  lemma PostExtractSnoc(entries: seq<Entry>, i: nat)
    requires i < |entries|
    ensures PostExtract(entries[..i + 1]) == PostStep(PostExtract(entries[..i]), entries[i])
  {
    assert entries[..i + 1][..i] == entries[..i];
  }

  /** The condition texts are kept as read: exactly the non-empty ones. */
  predicate KeepsRawCondition(e: Entry, x: string)
  {
    e == Entry(Condition(Text(x))) && x != ""
  }

  /** Reference definition, read from the first entry on: the condition texts
      an entry contributes when stored as read (a non-empty text, or nothing). */
  function KeptRawCondition(e: Entry): seq<string>
  {
    if e.Entry? && e.resource.Condition? && e.resource.code.Text? && e.resource.code.s != ""
    then [e.resource.code.s] else []
  }

  function KeptRawMedication(e: Entry): seq<string>
  {
    if e.Entry? && e.resource.MedicationRequest? && e.resource.medication.Text? && e.resource.medication.s != ""
    then [e.resource.medication.s] else []
  }

  function KeptRawConditions(entries: seq<Entry>): seq<string>
  {
    Gather(entries, KeptRawCondition)
  }

  function KeptRawMedications(entries: seq<Entry>): seq<string>
  {
    Gather(entries, KeptRawMedication)
  }

  /** When the entry loop runs through, it has inserted exactly the non-empty
      raw texts, one row per entry, in bundle order. */
  lemma {:induction false} PostExtractInOrder(entries: seq<Entry>)
    ensures !PostExtract(entries).raised ==>
              PostExtract(entries).conditions == KeptRawConditions(entries) &&
              PostExtract(entries).medications == KeptRawMedications(entries)
  {
    if entries != [] && !PostExtract(entries).raised {
      var init, last := entries[..|entries| - 1], entries[|entries| - 1];
      assert entries == init + [last];
      assert !PostExtract(init).raised;
      PostExtractInOrder(init);
      GatherSnoc(init, last, KeptRawCondition);
      GatherSnoc(init, last, KeptRawMedication);
    }
  }

  /** The entry loop stops on a raise exactly when some entry cannot be read;
      when it runs through, the condition rows are exactly the non-empty raw
      condition texts (PostExtractInOrder gives the lists themselves). */
  lemma {:induction false} PostExtractSpec(entries: seq<Entry>)
    ensures PostExtract(entries).raised <==> exists k :: 0 <= k < |entries| && PostEntryRaises(entries[k])
    ensures !PostExtract(entries).raised ==>
              forall x :: x in PostExtract(entries).conditions <==> exists k :: 0 <= k < |entries| && KeepsRawCondition(entries[k], x)
  {
    if entries != [] {
      var init, last := entries[..|entries| - 1], entries[|entries| - 1];
      PostExtractSpec(init);
      if exists k :: 0 <= k < |entries| && PostEntryRaises(entries[k]) {
        var k :| 0 <= k < |entries| && PostEntryRaises(entries[k]);
        if k < |init| {
          assert PostEntryRaises(init[k]);
        }
      }
      if exists k :: 0 <= k < |init| && PostEntryRaises(init[k]) {
        var k :| 0 <= k < |init| && PostEntryRaises(init[k]);
        assert PostEntryRaises(entries[k]);
      }
      if !PostExtract(entries).raised {
        forall x | x in PostExtract(entries).conditions ensures exists k :: 0 <= k < |entries| && KeepsRawCondition(entries[k], x) {
          if x in PostExtract(init).conditions {
            var k :| 0 <= k < |init| && KeepsRawCondition(init[k], x);
            assert KeepsRawCondition(entries[k], x);
          } else {
            assert KeepsRawCondition(entries[|entries| - 1], x);
          }
        }
        forall x, k | 0 <= k < |entries| && KeepsRawCondition(entries[k], x) ensures x in PostExtract(entries).conditions {
          if k < |init| {
            assert KeepsRawCondition(init[k], x);
          }
        }
      }
    }
  }

  /** Once the loop has raised, the remaining entries change nothing. */
  lemma {:induction false} PostExtractRaisedExtends(entries: seq<Entry>, i: nat)
    requires i <= |entries|
    requires PostExtract(entries[..i]).raised
    ensures PostExtract(entries) == PostExtract(entries[..i])
    decreases |entries| - i
  {
    if i < |entries| {
      PostExtractSnoc(entries, i);
      assert entries[..i + 1][..i] == entries[..i];
      PostExtractRaisedExtends(entries, i + 1);
    } else {
      assert entries[..i] == entries;
    }
  }

  // ----- The connection -----

  /** The server's committed tables, the tables as the open transaction sees
      them, and whether the transaction is aborted (PostgreSQL then refuses
      every statement until a rollback). */
  datatype Session = Session(committed: PgTables, working: PgTables, aborted: bool)

  predicate Settled(s: Session) { !s.aborted && s.working == s.committed }

  /** `INSERT ... ON CONFLICT (patient_id) DO NOTHING` with a non-NULL id. */
  function InsertPatientPg(t: PgTables, k: string, gender: string): PgTables
  {
    if k in t.patients then t else t.(patients := t.patients[k := gender])
  }

  function AppendPg(t: PgTables, k: string, cs: seq<string>, ms: seq<string>): PgTables
  {
    t.(conditions := t.conditions + RowsFor(Some(k), cs), medications := t.medications + RowsFor(Some(k), ms))
  }

  function MarkPg(t: PgTables, name: string): PgTables
  {
    t.(processedFiles := t.processedFiles + {name})
  }

  /** `mark_file_as_processed`: an insert and a commit, nothing caught. A name
      already in the ledger violates the key: the statement raises and the
      transaction is aborted. Returns the new session and whether it raised. */
  function MarkOutcome(s: Session, name: string): (Session, bool)
  {
    if s.aborted || name in s.working.processedFiles then (s.(aborted := true), true)
    else
      var t := MarkPg(s.working, name);
      (Session(t, t, false), false)
  }

  /** The ledger write is not idempotent: writing a name twice raises and
      leaves the connection unusable until a rollback. */
  lemma MarkTwiceRaises(s: Session, name: string)
    requires Settled(s)
    ensures !MarkOutcome(s, name).1 <==> name !in s.working.processedFiles
    ensures var (s1, _) := MarkOutcome(s, name);
      name in s1.working.processedFiles && MarkOutcome(s1, name).1 && MarkOutcome(s1, name).0.aborted
  {
  }

  // ----- One queue item -----

  datatype PostResult = Crashed | AlreadyProcessed | Skipped | Failed | Processed

  datatype PostFile = PostFile(result: PostResult, session: Session)

  /** The session after the `except` branch. As written it only prints;
      `rollback` models a `conn.rollback()` there. */
  function AfterFailure(s: Session, rollback: bool): Session
  {
    if rollback then Session(s.committed, s.committed, false) else s
  }

  /** One file taken from the queue by `process_files` (etl/loaderpost.py). On
      an aborted transaction the ledger query itself raises, outside any
      `try`, and the load worker dies. */
  function PostProcessOne(s: Session, staged: map<string, Bundle>, name: string, rollback: bool): PostFile
  {
    if s.aborted then PostFile(Crashed, s)
    else if name in s.working.processedFiles then PostFile(AlreadyProcessed, s)
    else match SqliteIngest.BundleAt(staged, name)
      case Unreadable => PostFile(Failed, AfterFailure(s, rollback))
      case Bundle(entries) =>
        match FindPatient(entries)
        case SearchRaises => PostFile(Failed, AfterFailure(s, rollback))
        case NoPatient => PostFile(Skipped, s)
        case Found(None, _) => PostFile(Failed, AfterFailure(s.(aborted := true), rollback))
        case Found(Some(k), gender) =>
          var p := PostExtract(entries);
          var w := AppendPg(InsertPatientPg(s.working, k, GenderOrUnknown(gender)), k, p.conditions, p.medications);
          if p.raised then PostFile(Failed, AfterFailure(s.(working := w), rollback))
          else PostFile(Processed, MarkOutcome(Session(w, w, false), name).0)
  }

  /** From a settled connection a skipped file changes nothing, a failed one
      commits nothing and is not in the ledger, and a processed one keeps the
      first patient row for its id, stores its texts as read and is in the
      ledger, all committed. */
  lemma PostProcessOneSpec(s: Session, staged: map<string, Bundle>, name: string, rollback: bool)
    requires Settled(s)
    ensures var r := PostProcessOne(s, staged, name, rollback);
      (r.result == AlreadyProcessed || r.result == Skipped ==> r.session == s) &&
      r.result != Crashed
    ensures var r := PostProcessOne(s, staged, name, rollback);
      r.result == Failed ==>
        r.session.committed == s.committed && r.session.working.processedFiles == s.working.processedFiles
    ensures var r := PostProcessOne(s, staged, name, rollback);
      r.result == Processed ==>
        var b := SqliteIngest.BundleAt(staged, name);
        var f := FindPatient(b.entries);
        var p := PostExtract(b.entries);
        b.Bundle? && f.Found? && f.id.Some? && !p.raised && Settled(r.session) &&
        r.session.committed.processedFiles == s.committed.processedFiles + {name} &&
        r.session.committed.conditions == s.committed.conditions + RowsFor(f.id, p.conditions) &&
        r.session.committed.medications == s.committed.medications + RowsFor(f.id, p.medications) &&
        f.id.value in r.session.committed.patients &&
        r.session.committed.patients[f.id.value] ==
          (if f.id.value in s.committed.patients then s.committed.patients[f.id.value] else GenderOrUnknown(f.gender))
  {
  }

  /** A processed file's rows are exactly its non-empty raw texts, one per
      entry, in bundle order, under its patient's id. */
  lemma PostProcessedInOrder(s: Session, staged: map<string, Bundle>, name: string, rollback: bool)
    requires Settled(s)
    ensures var r := PostProcessOne(s, staged, name, rollback);
      r.result == Processed ==>
        var b := SqliteIngest.BundleAt(staged, name);
        var k := FindPatient(b.entries).id;
        b.Bundle? &&
        r.session.committed.conditions == s.committed.conditions + RowsFor(k, KeptRawConditions(b.entries)) &&
        r.session.committed.medications == s.committed.medications + RowsFor(k, KeptRawMedications(b.entries))
  {
    PostProcessOneSpec(s, staged, name, rollback);
    var b := SqliteIngest.BundleAt(staged, name);
    if b.Bundle? {
      PostExtractInOrder(b.entries);
    }
  }

  // ----- The load worker -----

  datatype Ending = Ended | Blocked | Died

  datatype PostDrain = PostDrain(session: Session, queue: seq<QueueItem>, ending: Ending)

  /** `process_files` (etl/loaderpost.py): take items until the sentinel, which
      is consumed. `Blocked`: it waits on an empty queue for ever; `Died`: an
      exception escaped the loop. */
  function PostConsume(s: Session, queue: seq<QueueItem>, staged: map<string, Bundle>, rollback: bool): PostDrain
    decreases |queue|
  {
    if queue == [] then PostDrain(s, [], Blocked)
    else match queue[0]
      case Sentinel => PostDrain(s, queue[1..], Ended)
      case Path(name) =>
        var r := PostProcessOne(s, staged, name, rollback);
        if r.result == Crashed then PostDrain(s, queue[1..], Died)
        else PostConsume(r.session, queue[1..], staged, rollback)
  }

  /** As written: a first file whose Patient has no id aborts the transaction,
      and the worker dies on the next file before loading it; nothing more is
      committed. */
  lemma NullIdKillsLoadWorker(s: Session, staged: map<string, Bundle>, a: string, b: string,
                              rest: seq<QueueItem>, gender: Option<string>, entries: seq<Entry>)
    requires Settled(s) && a !in s.working.processedFiles
    requires a in staged && staged[a] == Bundle(entries) && FindPatient(entries) == Found(None, gender)
    ensures var r := PostConsume(s, [Path(a), Path(b)] + rest, staged, false);
      r.ending == Died && r.session.committed == s.committed && b !in r.session.committed.processedFiles - s.committed.processedFiles
  {
    var q := [Path(a), Path(b)] + rest;
    assert q[1..] == [Path(b)] + rest;
  }

  /** As written: a file that raises after its patient insert leaves its rows
      in the open transaction, and the next processed file commits them; the
      failed file's rows are stored although it is not in the ledger. */
  lemma FailedRowsCommittedByNextFile(s: Session, a: string, b: string, k: string, code: string, k2: string)
    requires Settled(s) && a != b && a !in s.working.processedFiles && b !in s.working.processedFiles
    requires code != ""
    ensures var bad := Bundle([Entry(Patient(Some(k), None)), Entry(Condition(Text(code))), BadEntry]);
      var good := Bundle([Entry(Patient(Some(k2), None))]);
      var r := PostConsume(s, [Path(a), Path(b), Sentinel], map[a := bad, b := good], false);
      r.ending == Ended && Row(Some(k), code) in r.session.committed.conditions &&
      a !in r.session.committed.processedFiles && b in r.session.committed.processedFiles
  {
    var e0, e1, e2 := Entry(Patient(Some(k), None)), Entry(Condition(Text(code))), BadEntry;
    var es := [e0, e1, e2];
    assert es[..2][..1] == [e0] && [e0][..0] == [] && es[..2] == [e0, e1];
    assert PostExtract([e0]) == Partial([], [], false);
    assert PostExtract([e0, e1]) == Partial([code], [], false);
    assert PostExtract(es) == Partial([code], [], true);
    var good := [Entry(Patient(Some(k2), None))];
    assert good[..0] == [];
    assert PostExtract(good) == Partial([], [], false);
    var staged := map[a := Bundle(es), b := Bundle(good)];
    assert FindPatient(es) == Found(Some(k), None);
    assert FindPatient(good) == Found(Some(k2), None);
    assert RowsFor(Some(k), [code]) == [Row(Some(k), code)];
    var w1 := AppendPg(InsertPatientPg(s.working, k, "unknown"), k, [code], []);
    var s1 := Session(s.committed, w1, false);
    assert PostProcessOne(s, staged, a, false) == PostFile(Failed, s1);
    assert Row(Some(k), code) in w1.conditions;
    var w2 := MarkPg(AppendPg(InsertPatientPg(w1, k2, "unknown"), k2, [], []), b);
    assert PostProcessOne(s1, staged, b, false) == PostFile(Processed, Session(w2, w2, false));
    assert Row(Some(k), code) in w2.conditions;
    var q := [Path(a), Path(b), Sentinel];
    assert q[1..] == [Path(b), Sentinel] && q[1..][1..] == [Sentinel];
    assert PostConsume(s1, q[1..], staged, false) == PostConsume(Session(w2, w2, false), [Sentinel], staged, false);
    assert PostConsume(s, q, staged, false) == PostConsume(s1, q[1..], staged, false);
  }

  /** Corrected: with `conn.rollback()` in the `except` branch every file either
      commits completely, with its ledger entry, or leaves the committed tables
      as they were, and the worker never dies. */
  lemma {:induction false} RollbackMakesFilesAtomic(s: Session, queue: seq<QueueItem>, staged: map<string, Bundle>)
    requires Settled(s)
    ensures var r := PostConsume(s, queue, staged, true);
      r.ending != Died && Settled(r.session) && s.committed.processedFiles <= r.session.committed.processedFiles
    decreases |queue|
  {
    if queue != [] && queue[0].Path? {
      var r := PostProcessOne(s, staged, queue[0].name, true);
      PostProcessOneSpec(s, staged, queue[0].name, true);
      PostFileAtomic(s, staged, queue[0].name);
      RollbackMakesFilesAtomic(r.session, queue[1..], staged);
    }
  }

  /** Corrected, one file: a failure leaves the session as it was. */
  lemma PostFileAtomic(s: Session, staged: map<string, Bundle>, name: string)
    requires Settled(s)
    ensures var r := PostProcessOne(s, staged, name, true);
      Settled(r.session) && (r.result != Processed ==> r.session == s) &&
      (r.result == Processed ==> name in r.session.committed.processedFiles) &&
      s.committed.processedFiles <= r.session.committed.processedFiles
  {
  }

  /** The sentinel is consumed, not put back. */
  lemma PostConsumeTakesSentinel(s: Session, queue: seq<QueueItem>, staged: map<string, Bundle>, rollback: bool)
    requires queue != [] && queue[|queue| - 1] == Sentinel
    requires forall i :: 0 <= i < |queue| - 1 ==> queue[i].Path?
    ensures PostConsume(s, queue, staged, rollback).ending != Blocked
    ensures PostConsume(s, queue, staged, rollback).ending == Ended ==> PostConsume(s, queue, staged, rollback).queue == []
    decreases |queue|
  {
    if |queue| > 1 {
      var r := PostProcessOne(s, staged, queue[0].name, rollback);
      if r.result != Crashed {
        assert forall i :: 0 <= i < |queue| - 2 ==> queue[1..][i] == queue[i + 1];
        PostConsumeTakesSentinel(r.session, queue[1..], staged, rollback);
      }
    }
  }

  // ----- The download worker -----

  /** `download_files(conn)` (etl/loaderpost.py): the catalog is `{}` on any
      failure, and then it returns without queueing the sentinel. */
  function PostDownloadSpec(done: set<string>, pages: seq<Catalog.Page>, fetched: map<string, Bundle>,
                            h: SqliteIngest.Handoff): SqliteIngest.Handoff
  {
    SqliteIngest.DownloadSpec(done, Some(Catalog.PostRemoteFiles(pages)), fetched, h)
  }

  /** An empty catalog (after a failure, or genuinely empty) leaves the
      hand-off as it was; otherwise the queue gains one path per work-list
      name whose fetch succeeds, in catalog order, then the sentinel. */
  lemma PostDownloadQueue(done: set<string>, pages: seq<Catalog.Page>, fetched: map<string, Bundle>,
                          h: SqliteIngest.Handoff)
    ensures Catalog.PostRemoteFiles(pages) == [] ==> PostDownloadSpec(done, pages, fetched, h) == h
    ensures Catalog.PostRemoteFiles(pages) != [] ==>
              PostDownloadSpec(done, pages, fetched, h).queue ==
                h.queue + SqliteIngest.PathsOf(SqliteIngest.FetchedNames(SqliteIngest.WorkList(Catalog.PostRemoteFiles(pages), done), fetched)) + [Sentinel]
  {
    if Catalog.PostRemoteFiles(pages) != [] {
      SqliteIngest.DownloadSpecQueue(done, Catalog.PostRemoteFiles(pages), fetched, h);
    }
  }

  /** As written: when the catalog cannot be read, or lists nothing, the load
      worker waits for ever on an empty queue. */
  lemma CatalogFailureBlocksLoadWorker(s: Session, pages: seq<Catalog.Page>, fetched: map<string, Bundle>,
                                       staged: map<string, Bundle>, rollback: bool)
    requires Catalog.PostRemoteFiles(pages) == []
    ensures var h := PostDownloadSpec(s.working.processedFiles, pages, fetched, SqliteIngest.Handoff([], staged, 0));
      h.queue == [] && PostConsume(s, h.queue, h.staged, rollback).ending == Blocked
  {
  }

  // ----- The connection and the workers as objects -----

  /** The psycopg2 connection: the tables as its open transaction sees them,
      the committed tables, and whether the transaction is aborted. */
  class PgStore {
    var patients: map<string, string>
    var conditions: seq<Row>
    var medications: seq<Row>
    var processedFiles: set<string>
    var committed: PgTables
    var aborted: bool

    function Working(): PgTables
      reads this
    {
      PgTables(patients, conditions, medications, processedFiles)
    }

    function Current(): Session
      reads this
    {
      Session(committed, Working(), aborted)
    }

    constructor (t: PgTables)
      ensures Current() == Session(t, t, false)
    {
      patients, conditions, medications, processedFiles := t.patients, t.conditions, t.medications, t.processedFiles;
      committed, aborted := t, false;
    }

    /** `is_file_processed`: raises on an aborted transaction. */
    method IsFileProcessed(name: string) returns (raised: bool, found: bool)
      ensures raised <==> aborted
      ensures !raised ==> (found <==> name in processedFiles)
    {
      if aborted {
        return true, false;
      }
      return false, name in processedFiles;
    }

    /** The patient insert; a NULL id violates NOT NULL and aborts the transaction. */
    method InsertPatientOnConflictDoNothing(id: Option<string>, gender: string) returns (raised: bool)
      requires !aborted
      modifies this
      ensures raised <==> id.None?
      ensures id.None? ==> Current() == old(Current()).(aborted := true)
      ensures id.Some? ==> Current() == old(Current()).(working := InsertPatientPg(old(Working()), id.value, gender))
    {
      if id.None? {
        aborted := true;
        return true;
      }
      if id.value !in patients {
        patients := patients[id.value := gender];
      }
      return false;
    }

    method InsertCondition(k: string, text: string)
      requires !aborted && k in patients
      modifies this
      ensures Current() == old(Current()).(working := old(Working()).(conditions := old(conditions) + [Row(Some(k), text)]))
    {
      conditions := conditions + [Row(Some(k), text)];
    }

    method InsertMedication(k: string, text: string)
      requires !aborted && k in patients
      modifies this
      ensures Current() == old(Current()).(working := old(Working()).(medications := old(medications) + [Row(Some(k), text)]))
    {
      medications := medications + [Row(Some(k), text)];
    }

    method Commit()
      requires !aborted
      modifies this
      ensures Current() == Session(old(Working()), old(Working()), false)
    {
      committed := Working();
    }

    method Rollback()
      modifies this
      ensures Current() == Session(old(committed), old(committed), false)
    {
      patients, conditions, medications, processedFiles := committed.patients, committed.conditions, committed.medications, committed.processedFiles;
      aborted := false;
    }

    /** `mark_file_as_processed`. */
    method MarkFileAsProcessed(name: string) returns (raised: bool)
      modifies this
      ensures (Current(), raised) == MarkOutcome(old(Current()), name)
    {
      if aborted || name in processedFiles {
        aborted := true;
        return true;
      }
      processedFiles := processedFiles + {name};
      committed := Working();
      return false;
    }
  }

  /** One more catalog name extends the work list, and the fetch loop over
      it, by at most that name. */
  lemma FetchStep(remote: seq<string>, i: nat, done: set<string>, fetched: map<string, Bundle>, h0: SqliteIngest.Handoff)
    requires i < |remote|
    ensures remote[i] in done ==> SqliteIngest.WorkList(remote[..i + 1], done) == SqliteIngest.WorkList(remote[..i], done)
    ensures remote[i] !in done ==>
      var p := SqliteIngest.FetchAll(SqliteIngest.WorkList(remote[..i], done), fetched, h0);
      var n := remote[i];
      SqliteIngest.FetchAll(SqliteIngest.WorkList(remote[..i + 1], done), fetched, h0) ==
        if n in fetched then SqliteIngest.Handoff(p.queue + [Path(n)], p.staged[n := fetched[n]], p.downloaded + 1)
        else p.(staged := p.staged - {n})
  {
    assert remote[..i + 1][..i] == remote[..i];
    var w := SqliteIngest.WorkList(remote[..i], done);
    if remote[i] !in done {
      assert SqliteIngest.WorkList(remote[..i + 1], done) == w + [remote[i]];
      assert (w + [remote[i]])[..|w|] == w;
    }
  }

  /** The module-level queue and the staged files, with the connection both
      workers are given. */
  class PostIngestion {
    const db: PgStore
    var queue: seq<QueueItem>
    var staged: map<string, Bundle>

    constructor (store: PgStore)
      ensures db == store && queue == [] && staged == map[]
    {
      db := store;
      queue, staged := [], map[];
    }

    /** Fetching one name: a successful fetch stages and queues it, a failed
        one removes any partial file. */
    method Fetch(name: string, fetched: map<string, Bundle>)
      modifies this
      ensures name in fetched ==> queue == old(queue) + [Path(name)] && staged == old(staged)[name := fetched[name]]
      ensures name !in fetched ==> queue == old(queue) && staged == old(staged) - {name}
    {
      if name in fetched {
        staged := staged[name := fetched[name]];
        queue := queue + [Path(name)];
      } else {
        staged := staged - {name};
      }
    }

    /** `download_files(conn)`: for each catalog name not in the ledger, fetch,
        stage and queue it; then the sentinel. */
    method DownloadFiles(pages: seq<Catalog.Page>, fetched: map<string, Bundle>)
      requires !db.aborted
      modifies this
      ensures var h := PostDownloadSpec(db.processedFiles, pages, fetched, SqliteIngest.Handoff(old(queue), old(staged), 0));
        queue == h.queue && staged == h.staged
    {
      var remote := Catalog.PostGetRemoteFiles(pages);
      if remote == [] {
        return;
      }
      ghost var h0 := SqliteIngest.Handoff(queue, staged, 0);
      ghost var done := db.processedFiles;
      ghost var count := 0;
      var i := 0;
      while i < |remote|
        invariant 0 <= i <= |remote|
        invariant SqliteIngest.FetchAll(SqliteIngest.WorkList(remote[..i], done), fetched, h0) == SqliteIngest.Handoff(queue, staged, count)
      {
        var name := remote[i];
        FetchStep(remote, i, done, fetched, h0);
        var raised, found := db.IsFileProcessed(name);
        if !found {
          Fetch(name, fetched);
          if name in fetched {
            count := count + 1;
          }
        }
        i := i + 1;
      }
      assert remote[..i] == remote;
      queue := queue + [Sentinel];
    }

    /** The entry loop of `process_files` for one bundle; stops at the first
        entry that raises, keeping the rows inserted before it. */
    method InsertEntryRows(k: string, entries: seq<Entry>) returns (raised: bool)
      requires !db.aborted && k in db.patients
      modifies db
      ensures raised == PostExtract(entries).raised
      ensures db.Current() == old(db.Current()).(working := AppendPg(old(db.Working()), k, PostExtract(entries).conditions, PostExtract(entries).medications))
    {
      var i := 0;
      while i < |entries|
        invariant 0 <= i <= |entries|
        invariant !PostExtract(entries[..i]).raised
        invariant db.Current() == old(db.Current()).(working := AppendPg(old(db.Working()), k, PostExtract(entries[..i]).conditions, PostExtract(entries[..i]).medications))
        invariant !db.aborted && k in db.patients
      {
        var before := PostExtract(entries[..i]);
        PostExtractSnoc(entries, i);
        var entry := entries[i];
        var text: Option<string> := Some("");
        var isCondition := false;
        if entry.BadEntry? {
          text := None;
        } else if entry.resource.Condition? {
          text := PostReadText(entry.resource.code);
          isCondition := true;
        } else if entry.resource.MedicationRequest? {
          text := PostReadText(entry.resource.medication);
        }
        if text.None? {
          PostExtractRaisedExtends(entries, i + 1);
          return true;
        }
        if text.value != "" {
          if isCondition {
            SqliteIngest.RowsForSnoc(Some(k), before.conditions, text.value);
            db.InsertCondition(k, text.value);
          } else {
            SqliteIngest.RowsForSnoc(Some(k), before.medications, text.value);
            db.InsertMedication(k, text.value);
          }
        }
        i := i + 1;
      }
      assert entries[..i] == entries;
      return false;
    }

    /** One turn of the `process_files` loop (etl/loaderpost.py) for a queued path. */
    method ProcessFile(name: string) returns (result: PostResult)
      modifies db
      ensures result == PostProcessOne(old(db.Current()), staged, name, false).result
      ensures db.Current() == PostProcessOne(old(db.Current()), staged, name, false).session
    {
      var raised, done := db.IsFileProcessed(name);
      if raised {
        return Crashed;
      }
      if done {
        return AlreadyProcessed;
      }
      var bundle := SqliteIngest.BundleAt(staged, name);
      if bundle.Unreadable? {
        return Failed;
      }
      var entries := bundle.entries;
      var search := FindPatient(entries);
      if search.SearchRaises? {
        return Failed;
      }
      if search.NoPatient? {
        return Skipped;
      }
      raised := db.InsertPatientOnConflictDoNothing(search.id, GenderOrUnknown(search.gender));
      if raised {
        return Failed;
      }
      raised := InsertEntryRows(search.id.value, entries);
      if raised {
        return Failed;
      }
      db.Commit();
      raised := db.MarkFileAsProcessed(name);
      return Processed;
    }

    /** `process_files` (etl/loaderpost.py): load queued files until the
        sentinel, which is consumed. */
    method ProcessFiles() returns (ending: Ending)
      modifies this, db
      ensures var r := PostConsume(old(db.Current()), old(queue), staged, false);
        db.Current() == r.session && queue == r.queue && ending == r.ending
      ensures staged == old(staged)
    {
      while true
        invariant PostConsume(db.Current(), queue, staged, false) == PostConsume(old(db.Current()), old(queue), staged, false)
        invariant staged == old(staged)
        decreases |queue|
      {
        if queue == [] {
          return Blocked;
        }
        var item := queue[0];
        queue := queue[1..];
        if item.Sentinel? {
          return Ended;
        }
        ghost var before := db.Current();
        var result := ProcessFile(item.name);
        if result == Crashed {
          return Died;
        }
      }
    }
  }
}

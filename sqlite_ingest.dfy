/** Ingestion into the SQLite primary store. etl/loader_pipeline.py and
    etl/loader.py carry the same code for `is_file_processed`,
    `mark_file_as_processed`, `download_files` and `process_files`; this
    module models both. The download and load workers are run one after the
    other: the download worker fills the queue, then the load worker drains
    it. */
module SqliteIngest {
  import opened Base
  import opened Fhir
  import opened Sanitize
  import opened Store
  import Catalog

  // ----- Reading one bundle -----

  /** `clean_text(resource.get(field, {}).get('text', ''))`; None when it raises
      (a JSON null text reaches `clean_text` as None, a non-object field has no `.get`). */
  function ReadText(l: Label): Option<string>
  {
    match l
    case Absent => Some("")
    case Text(s) => Some(CleanText(s))
    case Null => None
    case Malformed => None
  }

  /** Reading this entry inside the entry loop raises. */
  predicate EntryRaises(e: Entry)
  {
    match e
    case BadEntry => true
    case Entry(Condition(l)) => ReadText(l).None?
    case Entry(MedicationRequest(l)) => ReadText(l).None?
    case Entry(_) => false
  }

  /** The labels the entry loop has inserted so far, or `Raises`. */
  datatype Extracted = Raises | Rows(conditions: seq<string>, medications: seq<string>)

  /** One turn of the entry loop: a non-empty cleaned text adds one row. */
  function ExtractStep(acc: Extracted, e: Entry): Extracted
  {
    match acc
    case Raises => Raises
    case Rows(cs, ms) =>
      match e
      case BadEntry => Raises
      case Entry(Condition(l)) =>
        (match ReadText(l)
         case None => Raises
         case Some(t) => if t == "" then acc else Rows(cs + [t], ms))
      case Entry(MedicationRequest(l)) =>
        (match ReadText(l)
         case None => Raises
         case Some(t) => if t == "" then acc else Rows(cs, ms + [t]))
      case Entry(_) => acc
  }

  /** The entry loop over `entries`, defined on its last entry so that a
      prefix of the loop is a prefix of the sequence. */
  function Extract(entries: seq<Entry>): Extracted
  {
    if entries == [] then Rows([], [])
    else ExtractStep(Extract(entries[..|entries| - 1]), entries[|entries| - 1])
  }

  /** The entry loop cleans and keeps exactly the non-empty condition texts. */
  predicate KeepsCondition(e: Entry, x: string)
  {
    e.Entry? && e.resource.Condition? && e.resource.code.Text? && CleanText(e.resource.code.s) == x && x != ""
  }

  predicate KeepsMedication(e: Entry, x: string)
  {
    e.Entry? && e.resource.MedicationRequest? && e.resource.medication.Text? && CleanText(e.resource.medication.s) == x && x != ""
  }

  /** One entry that does not raise leaves the loop running and adds at most
      the row it keeps. */
  lemma ExtractStepRows(acc: Extracted, e: Entry)
    requires acc.Rows? && !EntryRaises(e)
    ensures ExtractStep(acc, e).Rows?
    ensures forall x :: x in ExtractStep(acc, e).conditions <==> x in acc.conditions || KeepsCondition(e, x)
    ensures forall x :: x in ExtractStep(acc, e).medications <==> x in acc.medications || KeepsMedication(e, x)
    ensures |ExtractStep(acc, e).conditions| + |ExtractStep(acc, e).medications| <= |acc.conditions| + |acc.medications| + 1
  {
    if e.Entry? && e.resource.Condition? && e.resource.code.Text? {
      if e.resource.code.s == "" {
        assert CleanText(e.resource.code.s) == "";
      }
    }
    if e.Entry? && e.resource.MedicationRequest? && e.resource.medication.Text? {
      if e.resource.medication.s == "" {
        assert CleanText(e.resource.medication.s) == "";
      }
    }
  }

  /** The entry loop raises exactly when some entry cannot be read. */
  lemma {:induction false} ExtractRaisesIff(entries: seq<Entry>)
    ensures Extract(entries).Raises? <==> exists k :: 0 <= k < |entries| && EntryRaises(entries[k])
  {
    if entries != [] {
      var init, last := entries[..|entries| - 1], entries[|entries| - 1];
      ExtractRaisesIff(init);
      if exists k :: 0 <= k < |entries| && EntryRaises(entries[k]) {
        var k :| 0 <= k < |entries| && EntryRaises(entries[k]);
        if k < |init| {
          assert EntryRaises(init[k]);
        }
      }
      if exists k :: 0 <= k < |init| && EntryRaises(init[k]) {
        var k :| 0 <= k < |init| && EntryRaises(init[k]);
        assert EntryRaises(entries[k]);
      }
    }
  }

  /** When the entry loop completes it has inserted one condition row per
      condition entry with a non-empty cleaned text, and no other; at most one
      row per entry in all. */
  lemma {:induction false} ExtractConditionsSpec(entries: seq<Entry>)
    requires Extract(entries).Rows?
    ensures forall x :: x in Extract(entries).conditions <==> exists k :: 0 <= k < |entries| && KeepsCondition(entries[k], x)
    ensures |Extract(entries).conditions| + |Extract(entries).medications| <= |entries|
    ensures Extract(entries).conditions == KeptConditions(entries)
  {
    assert Extract(entries).conditions == KeptConditions(entries) by {
      ExtractRowsInOrder(entries);
    }
    if entries != [] {
      var init, last := entries[..|entries| - 1], entries[|entries| - 1];
      ExtractConditionsSpec(init);
      ExtractStepRows(Extract(init), last);
      forall x | x in Extract(entries).conditions ensures exists k :: 0 <= k < |entries| && KeepsCondition(entries[k], x) {
        if x in Extract(init).conditions {
          var k :| 0 <= k < |init| && KeepsCondition(init[k], x);
          assert KeepsCondition(entries[k], x);
        } else {
          assert KeepsCondition(entries[|entries| - 1], x);
        }
      }
      forall x, k | 0 <= k < |entries| && KeepsCondition(entries[k], x) ensures x in Extract(entries).conditions {
        if k < |init| {
          assert KeepsCondition(init[k], x);
        }
      }
    }
  }

  /** The same for medication rows. */
  lemma {:induction false} ExtractMedicationsSpec(entries: seq<Entry>)
    requires Extract(entries).Rows?
    ensures forall x :: x in Extract(entries).medications <==> exists k :: 0 <= k < |entries| && KeepsMedication(entries[k], x)
    ensures Extract(entries).medications == KeptMedications(entries)
  {
    assert Extract(entries).medications == KeptMedications(entries) by {
      ExtractRowsInOrder(entries);
    }
    if entries != [] {
      var init, last := entries[..|entries| - 1], entries[|entries| - 1];
      ExtractMedicationsSpec(init);
      ExtractStepRows(Extract(init), last);
      forall x | x in Extract(entries).medications ensures exists k :: 0 <= k < |entries| && KeepsMedication(entries[k], x) {
        if x in Extract(init).medications {
          var k :| 0 <= k < |init| && KeepsMedication(init[k], x);
          assert KeepsMedication(entries[k], x);
        } else {
          assert KeepsMedication(entries[|entries| - 1], x);
        }
      }
      forall x, k | 0 <= k < |entries| && KeepsMedication(entries[k], x) ensures x in Extract(entries).medications {
        if k < |init| {
          assert KeepsMedication(init[k], x);
        }
      }
    }
  }

  /** The condition row one entry contributes: its cleaned text, when it is a
      Condition whose cleaned text is not empty. */
  function KeptCondition(e: Entry): seq<string>
  {
    if e.Entry? && e.resource.Condition? && e.resource.code.Text? && CleanText(e.resource.code.s) != ""
    then [CleanText(e.resource.code.s)] else []
  }

  /** The medication row one entry contributes. */
  function KeptMedication(e: Entry): seq<string>
  {
    if e.Entry? && e.resource.MedicationRequest? && e.resource.medication.Text? && CleanText(e.resource.medication.s) != ""
    then [CleanText(e.resource.medication.s)] else []
  }

  /** Reference definition, read from the first entry on: one condition row
      per kept entry, in entry order. */
  function KeptConditions(entries: seq<Entry>): seq<string>
  {
    Gather(entries, KeptCondition)
  }

  /** The same for medication rows. */
  function KeptMedications(entries: seq<Entry>): seq<string>
  {
    Gather(entries, KeptMedication)
  }

  /** A completed entry loop inserts exactly one row per kept entry, in entry
      order: the condition rows are `KeptConditions` and the medication rows
      `KeptMedications`. */
  lemma {:induction false} ExtractRowsInOrder(entries: seq<Entry>)
    requires Extract(entries).Rows?
    ensures Extract(entries).conditions == KeptConditions(entries)
    ensures Extract(entries).medications == KeptMedications(entries)
  {
    if entries != [] {
      var init, last := entries[..|entries| - 1], entries[|entries| - 1];
      assert entries == init + [last];
      assert Extract(init).Rows?;
      ExtractRowsInOrder(init);
      GatherSnoc(init, last, KeptCondition);
      GatherSnoc(init, last, KeptMedication);
    }
  }

  /** The loop over one more entry is one more step. */
  lemma ExtractSnoc(entries: seq<Entry>, i: nat)
    requires i < |entries|
    ensures Extract(entries[..i + 1]) == ExtractStep(Extract(entries[..i]), entries[i])
  {
    assert entries[..i + 1][..i] == entries[..i];
  }

  /** Once the entry loop has raised, the rest of the bundle cannot undo it. */
  lemma {:induction false} ExtractRaisesExtends(entries: seq<Entry>, i: nat)
    requires i <= |entries|
    requires Extract(entries[..i]).Raises?
    ensures Extract(entries).Raises?
    decreases |entries| - i
  {
    if i < |entries| {
      assert entries[..i + 1][..i] == entries[..i];
      ExtractRaisesExtends(entries, i + 1);
    } else {
      assert entries[..i] == entries;
    }
  }

  /** What loading one staged file amounts to, before any table is touched. */
  datatype FileLoad =
    | LoadRaises
    | PatientMissing
    | Loaded(id: Option<string>, gender: string, conditions: seq<string>, medications: seq<string>)

  function LoadBundle(b: Bundle): FileLoad
  {
    match b
    case Unreadable => LoadRaises
    case Bundle(entries) =>
      match FindPatient(entries)
      case SearchRaises => LoadRaises
      case NoPatient => PatientMissing
      case Found(id, gender) =>
        match Extract(entries)
        case Raises => LoadRaises
        case Rows(cs, ms) => Loaded(id, GenderOrUnknown(gender), cs, ms)
  }

  /** `open(os.path.join(LOCAL_DATA_DIR, name))`: a name with no staged file fails to open. */
  function BundleAt(staged: map<string, Bundle>, name: string): Bundle
  {
    if name in staged then staged[name] else Unreadable
  }

  // ----- Table updates -----

  /** `INSERT OR IGNORE INTO patients`: a NULL id always adds a row (NULLs are
      distinct under SQLite's primary key); a present id keeps its row. */
  function InsertPatient(t: Tables, id: Option<string>, gender: string): Tables
  {
    match id
    case None => t.(nullIdPatients := t.nullIdPatients + [gender])
    case Some(k) => if k in t.patients then t else t.(patients := t.patients[k := gender])
  }

  /** The first write for an id wins; no other patient and no other table changes. */
  lemma InsertPatientFirstWins(t: Tables, k: string, gender: string)
    ensures var r := InsertPatient(t, Some(k), gender);
      k in r.patients &&
      r.patients[k] == (if k in t.patients then t.patients[k] else gender) &&
      (forall j :: j != k ==> (j in r.patients <==> j in t.patients)) &&
      (forall j :: j != k && j in t.patients ==> r.patients[j] == t.patients[j]) &&
      r.nullIdPatients == t.nullIdPatients && r.conditions == t.conditions &&
      r.medications == t.medications && r.processedFiles == t.processedFiles
  {
  }

  function AppendRows(t: Tables, id: Option<string>, cs: seq<string>, ms: seq<string>): Tables
  {
    t.(conditions := t.conditions + RowsFor(id, cs), medications := t.medications + RowsFor(id, ms))
  }

  function Mark(t: Tables, name: string): Tables
  {
    t.(processedFiles := t.processedFiles + {name})
  }

  lemma RowsForSnoc(id: Option<string>, texts: seq<string>, x: string)
    ensures RowsFor(id, texts + [x]) == RowsFor(id, texts) + [Row(id, x)]
  {
    assert forall i :: 0 <= i < |texts| ==> (texts + [x])[i] == texts[i];
  }

  /** Every condition and medication row with an id names a patient row
      (SQLite checks no foreign key whose value is NULL). */
  predicate RefIntegrity(t: Tables)
  {
    (forall r :: r in t.conditions && r.patientId.Some? ==> r.patientId.value in t.patients) &&
    (forall r :: r in t.medications && r.patientId.Some? ==> r.patientId.value in t.patients)
  }

  // ----- One queue item -----

  datatype FileResult = AlreadyProcessed | SkippedNoPatient | Failed | Processed

  datatype Step = Step(result: FileResult, tables: Tables)

  /** One file taken from the queue by `process_files`: skipped when the ledger
      has it or its bundle has no Patient; rolled back when loading raises;
      otherwise the patient and rows are committed, then the ledger is written. */
  function ProcessOne(t: Tables, staged: map<string, Bundle>, name: string): Step
  {
    if name in t.processedFiles then Step(AlreadyProcessed, t)
    else match LoadBundle(BundleAt(staged, name))
      case LoadRaises => Step(Failed, t)
      case PatientMissing => Step(SkippedNoPatient, t)
      case Loaded(id, gender, cs, ms) => Step(Processed, Mark(AppendRows(InsertPatient(t, id, gender), id, cs, ms), name))
  }

  /** Only a processed file changes the tables, and it is then in the ledger;
      the skip and failure paths add no patient, row or ledger entry. */
  lemma ProcessOneSpec(t: Tables, staged: map<string, Bundle>, name: string)
    ensures ProcessOne(t, staged, name).result != Processed ==> ProcessOne(t, staged, name).tables == t
    ensures ProcessOne(t, staged, name).result == Processed <==>
              name !in t.processedFiles && LoadBundle(BundleAt(staged, name)).Loaded?
    ensures name in ProcessOne(t, staged, name).tables.processedFiles <==>
              name in t.processedFiles || LoadBundle(BundleAt(staged, name)).Loaded?
    ensures t.processedFiles <= ProcessOne(t, staged, name).tables.processedFiles
  {
  }

  /** A processed file keeps the first patient row for its id and appends
      exactly its rows after the existing ones: one per kept Condition or
      MedicationRequest entry, in entry order. */
  lemma ProcessedAppends(t: Tables, staged: map<string, Bundle>, name: string)
    requires ProcessOne(t, staged, name).result == Processed
    ensures var l := LoadBundle(BundleAt(staged, name)); var r := ProcessOne(t, staged, name).tables;
      l.Loaded? &&
      r.conditions == t.conditions + RowsFor(l.id, l.conditions) &&
      r.medications == t.medications + RowsFor(l.id, l.medications) &&
      r.processedFiles == t.processedFiles + {name} &&
      (l.id.Some? ==> l.id.value in r.patients &&
                      r.patients[l.id.value] == (if l.id.value in t.patients then t.patients[l.id.value] else l.gender))
    ensures var b := BundleAt(staged, name); var r := ProcessOne(t, staged, name).tables;
      b.Bundle? &&
      r.conditions == t.conditions + RowsFor(LoadBundle(b).id, KeptConditions(b.entries)) &&
      r.medications == t.medications + RowsFor(LoadBundle(b).id, KeptMedications(b.entries))
  {
    var b := BundleAt(staged, name);
    assert b.Bundle? && Extract(b.entries).Rows?;
    ExtractRowsInOrder(b.entries);
  }

  /** Appending rows of a patient that is present keeps every row's patient present. */
  lemma RowsForRefer(rows: seq<Row>, id: Option<string>, texts: seq<string>, patients: map<string, string>)
    requires forall r :: r in rows && r.patientId.Some? ==> r.patientId.value in patients
    requires id.Some? ==> id.value in patients
    ensures forall r :: r in rows + RowsFor(id, texts) && r.patientId.Some? ==> r.patientId.value in patients
  {
    forall r | r in rows + RowsFor(id, texts) && r.patientId.Some? ensures r.patientId.value in patients {
      if r !in rows {
        var i :| 0 <= i < |RowsFor(id, texts)| && RowsFor(id, texts)[i] == r;
      }
    }
  }

  /** Loading a file never leaves a row pointing at a missing patient. */
  lemma ProcessOneKeepsRefIntegrity(t: Tables, staged: map<string, Bundle>, name: string)
    requires RefIntegrity(t)
    ensures RefIntegrity(ProcessOne(t, staged, name).tables)
  {
    var l := LoadBundle(BundleAt(staged, name));
    if name !in t.processedFiles && l.Loaded? {
      var p := InsertPatient(t, l.id, l.gender);
      assert t.patients.Keys <= p.patients.Keys;
      RowsForRefer(t.conditions, l.id, l.conditions, p.patients);
      RowsForRefer(t.medications, l.id, l.medications, p.patients);
    }
  }

  // ----- The load worker -----

  /** The state `process_files` leaves: tables, queue, counters, and whether
      it returned (false: it waits on an empty queue for ever). */
  datatype Drain = Drain(tables: Tables, queue: seq<QueueItem>, processed: nat, errors: nat, finished: bool)

  /** `process_files`: take items until the sentinel. `reenqueue` says whether
      the sentinel is put back on the queue, as `download_queue.put(None)` does. */
  function Consume(t: Tables, queue: seq<QueueItem>, staged: map<string, Bundle>,
                   processed: nat, errors: nat, reenqueue: bool): Drain
    decreases |queue|
  {
    if queue == [] then Drain(t, [], processed, errors, false)
    else match queue[0]
      case Sentinel => Drain(t, if reenqueue then queue[1..] + [Sentinel] else queue[1..], processed, errors, true)
      case Path(name) =>
        var s := ProcessOne(t, staged, name);
        Consume(s.tables, queue[1..], staged,
                processed + (if s.result == Processed then 1 else 0),
                errors + (if s.result == Failed then 1 else 0), reenqueue)
  }

  /** The names the load worker takes before it meets the first sentinel. */
  function Pending(queue: seq<QueueItem>): seq<string>
  {
    if queue == [] || queue[0].Sentinel? then [] else [queue[0].name] + Pending(queue[1..])
  }

  /** The load worker returns exactly when a sentinel is queued. */
  lemma {:induction false} ConsumeFinishesIff(t: Tables, queue: seq<QueueItem>, staged: map<string, Bundle>,
                                              processed: nat, errors: nat, reenqueue: bool)
    ensures Consume(t, queue, staged, processed, errors, reenqueue).finished <==> Sentinel in queue
    decreases |queue|
  {
    if queue != [] && queue[0].Path? {
      var s := ProcessOne(t, staged, queue[0].name);
      ConsumeFinishesIff(s.tables, queue[1..], staged,
                         processed + (if s.result == Processed then 1 else 0),
                         errors + (if s.result == Failed then 1 else 0), reenqueue);
      assert queue == [queue[0]] + queue[1..];
    }
  }

  /** Draining the queue keeps referential integrity and never shrinks the ledger. */
  lemma {:induction false} ConsumeKeeps(t: Tables, queue: seq<QueueItem>, staged: map<string, Bundle>,
                                        processed: nat, errors: nat, reenqueue: bool)
    ensures t.processedFiles <= Consume(t, queue, staged, processed, errors, reenqueue).tables.processedFiles
    ensures RefIntegrity(t) ==> RefIntegrity(Consume(t, queue, staged, processed, errors, reenqueue).tables)
    decreases |queue|
  {
    if queue != [] && queue[0].Path? {
      var s := ProcessOne(t, staged, queue[0].name);
      ProcessOneSpec(t, staged, queue[0].name);
      if RefIntegrity(t) {
        ProcessOneKeepsRefIntegrity(t, staged, queue[0].name);
      }
      ConsumeKeeps(s.tables, queue[1..], staged,
                   processed + (if s.result == Processed then 1 else 0),
                   errors + (if s.result == Failed then 1 else 0), reenqueue);
    }
  }

  /** After the load worker, every pending file whose bundle loads is in the ledger. */
  lemma {:induction false} ConsumeMarksLoaded(t: Tables, queue: seq<QueueItem>, staged: map<string, Bundle>,
                                              processed: nat, errors: nat, reenqueue: bool)
    ensures forall n :: n in Pending(queue) && LoadBundle(BundleAt(staged, n)).Loaded? ==>
              n in Consume(t, queue, staged, processed, errors, reenqueue).tables.processedFiles
    decreases |queue|
  {
    if queue != [] && queue[0].Path? {
      var n0 := queue[0].name;
      var s := ProcessOne(t, staged, n0);
      var p', e' := processed + (if s.result == Processed then 1 else 0), errors + (if s.result == Failed then 1 else 0);
      ProcessOneSpec(t, staged, n0);
      ConsumeMarksLoaded(s.tables, queue[1..], staged, p', e', reenqueue);
      ConsumeKeeps(s.tables, queue[1..], staged, p', e', reenqueue);
    }
  }

  /** When every pending file is already in the ledger or does not load, the
      load worker changes no table. */
  lemma {:induction false} ConsumeNoOp(t: Tables, queue: seq<QueueItem>, staged: map<string, Bundle>,
                                       processed: nat, errors: nat, reenqueue: bool)
    requires forall n :: n in Pending(queue) ==> n in t.processedFiles || !LoadBundle(BundleAt(staged, n)).Loaded?
    ensures Consume(t, queue, staged, processed, errors, reenqueue).tables == t
    ensures Consume(t, queue, staged, processed, errors, reenqueue).processed == processed
    decreases |queue|
  {
    if queue != [] && queue[0].Path? {
      var s := ProcessOne(t, staged, queue[0].name);
      ProcessOneSpec(t, staged, queue[0].name);
      assert queue[0].name in Pending(queue);
      ConsumeNoOp(s.tables, queue[1..], staged, processed,
                  errors + (if s.result == Failed then 1 else 0), reenqueue);
    }
  }

  /** Idempotence: draining the same queue over the same staged files a second
      time processes no file and changes no table. */
  lemma SecondPassChangesNothing(t: Tables, queue: seq<QueueItem>, staged: map<string, Bundle>,
                                 processed: nat, errors: nat, reenqueue: bool)
    ensures var first := Consume(t, queue, staged, processed, errors, reenqueue);
      var second := Consume(first.tables, queue, staged, first.processed, first.errors, reenqueue);
      second.tables == first.tables && second.processed == first.processed
  {
    var first := Consume(t, queue, staged, processed, errors, reenqueue);
    ConsumeMarksLoaded(t, queue, staged, processed, errors, reenqueue);
    ConsumeNoOp(first.tables, queue, staged, first.processed, first.errors, reenqueue);
  }

  /** The ledger write is a second commit after the rows' commit. Should the
      worker stop between the two, the file is not in the ledger, and the next
      run loads it again: the same rows are appended a second time. */
  lemma RetryAfterLostMarkDuplicatesRows(t: Tables, staged: map<string, Bundle>, name: string)
    requires ProcessOne(t, staged, name).result == Processed
    ensures var l := LoadBundle(BundleAt(staged, name));
      var committedOnly := AppendRows(InsertPatient(t, l.id, l.gender), l.id, l.conditions, l.medications);
      var retried := ProcessOne(committedOnly, staged, name).tables;
      retried.conditions == t.conditions + RowsFor(l.id, l.conditions) + RowsFor(l.id, l.conditions) &&
      retried.medications == t.medications + RowsFor(l.id, l.medications) + RowsFor(l.id, l.medications)
  {
  }

  // ----- The download worker -----

  /** `files_to_download`: the catalog names not in the ledger, in catalog order. */
  function WorkList(names: seq<string>, done: set<string>): (w: seq<string>)
    ensures forall n :: n in w <==> n in names && n !in done
    ensures |w| <= |names|
  {
    if names == [] then []
    else
      var init := WorkList(names[..|names| - 1], done);
      var last := names[|names| - 1];
      assert forall n :: n in names <==> n in names[..|names| - 1] || n == last;
      if last in done then init else init + [last]
  }

  /** What the download worker hands over: the queue, the staged files and `downloaded_count`. */
  datatype Handoff = Handoff(queue: seq<QueueItem>, staged: map<string, Bundle>, downloaded: nat)

  /** The fetch loop over the work list. `fetched` holds the names whose fetch
      succeeds and the bundle each one stages; a failed fetch removes any
      partial file. */
  function FetchAll(names: seq<string>, fetched: map<string, Bundle>, h: Handoff): Handoff
  {
    if names == [] then h
    else
      var p := FetchAll(names[..|names| - 1], fetched, h);
      var n := names[|names| - 1];
      if n in fetched then Handoff(p.queue + [Path(n)], p.staged[n := fetched[n]], p.downloaded + 1)
      else p.(staged := p.staged - {n})
  }

  /** The fetch loop queues one path per successful fetch, in work-list order,
      stages its bundle, and counts it. */
  lemma {:induction false} FetchAllSpec(names: seq<string>, fetched: map<string, Bundle>, h: Handoff)
    ensures var r := FetchAll(names, fetched, h);
      |h.queue| <= |r.queue| && r.queue[..|h.queue|] == h.queue &&
      r.downloaded == h.downloaded + (|r.queue| - |h.queue|) &&
      (forall i :: |h.queue| <= i < |r.queue| ==> r.queue[i].Path? && r.queue[i].name in names && r.queue[i].name in fetched) &&
      (forall n :: n in names && n in fetched ==> Path(n) in r.queue[|h.queue|..] && n in r.staged && r.staged[n] == fetched[n])
  {
    if names != [] {
      var init := names[..|names| - 1];
      FetchAllSpec(init, fetched, h);
      var p := FetchAll(init, fetched, h);
      var r := FetchAll(names, fetched, h);
      var n := names[|names| - 1];
      forall m | m in names && m in fetched ensures Path(m) in r.queue[|h.queue|..] && m in r.staged && r.staged[m] == fetched[m] {
        if m != n {
          assert m in init;
          if n in fetched {
            assert r.queue[|h.queue|..] == p.queue[|h.queue|..] + [Path(n)];
          }
        } else {
          assert r.queue[|r.queue| - 1] == Path(n);
        }
      }
    }
  }

  /** Reference definition, read from the first name on: the work-list names
      whose fetch succeeds, in work-list order. */
  function FetchedNames(names: seq<string>, fetched: map<string, Bundle>): seq<string>
  {
    if names == [] then []
    else (if names[0] in fetched then [names[0]] else []) + FetchedNames(names[1..], fetched)
  }

  /** One queue path per name, in order. */
  function PathsOf(names: seq<string>): seq<QueueItem>
  {
    if names == [] then [] else [Path(names[0])] + PathsOf(names[1..])
  }

  lemma {:induction false} FetchedNamesSnoc(names: seq<string>, n: string, fetched: map<string, Bundle>)
    ensures FetchedNames(names + [n], fetched) == FetchedNames(names, fetched) + (if n in fetched then [n] else [])
  {
    if names != [] {
      calc {
        FetchedNames(names + [n], fetched);
        { assert (names + [n])[0] == names[0] && (names + [n])[1..] == names[1..] + [n]; }
        (if names[0] in fetched then [names[0]] else []) + FetchedNames(names[1..] + [n], fetched);
        { FetchedNamesSnoc(names[1..], n, fetched); }
        (if names[0] in fetched then [names[0]] else []) + (FetchedNames(names[1..], fetched) + (if n in fetched then [n] else []));
      }
    }
  }

  lemma {:induction false} PathsOfSnoc(names: seq<string>, n: string)
    ensures PathsOf(names + [n]) == PathsOf(names) + [Path(n)]
  {
    if names != [] {
      calc {
        PathsOf(names + [n]);
        { assert (names + [n])[0] == names[0] && (names + [n])[1..] == names[1..] + [n]; }
        [Path(names[0])] + PathsOf(names[1..] + [n]);
        { PathsOfSnoc(names[1..], n); }
        [Path(names[0])] + (PathsOf(names[1..]) + [Path(n)]);
      }
    }
  }

  /** The fetch loop appends exactly one path per successfully fetched name,
      in work-list order, and counts each of them once. */
  lemma {:induction false} FetchAllQueue(names: seq<string>, fetched: map<string, Bundle>, h: Handoff)
    ensures FetchAll(names, fetched, h).queue == h.queue + PathsOf(FetchedNames(names, fetched))
    ensures FetchAll(names, fetched, h).downloaded == h.downloaded + |FetchedNames(names, fetched)|
  {
    if names != [] {
      var init, n := names[..|names| - 1], names[|names| - 1];
      assert names == init + [n];
      FetchAllQueue(init, fetched, h);
      FetchedNamesSnoc(init, n, fetched);
      var f := FetchedNames(init, fetched);
      if n in fetched {
        PathsOfSnoc(f, n);
      } else {
        assert f + [] == f;
      }
    }
  }

  /** `download_files` as written: it fetches the catalog itself and, when the
      result is None or empty, returns before queueing the sentinel. */
  function DownloadSpec(done: set<string>, remote: Option<seq<string>>, fetched: map<string, Bundle>, h: Handoff): Handoff
  {
    match remote
    case None => h
    case Some(names) =>
      if names == [] then h
      else
        var f := FetchAll(WorkList(names, done), fetched, h);
        f.(queue := f.queue + [Sentinel])
  }

  /** `download_files` with the sentinel queued on every path out of it. */
  function DownloadTerminated(done: set<string>, remote: Option<seq<string>>, fetched: map<string, Bundle>, h: Handoff): Handoff
  {
    match remote
    case None => h.(queue := h.queue + [Sentinel])
    case Some(names) =>
      var f := FetchAll(WorkList(names, done), fetched, h);
      f.(queue := f.queue + [Sentinel])
  }

  /** As written: with an unreachable or empty catalog no sentinel is queued,
      and the load worker, given the queue it starts from, waits for ever. */
  lemma EmptyCatalogBlocksLoadWorker(t: Tables, remote: Option<seq<string>>, fetched: map<string, Bundle>,
                                     staged: map<string, Bundle>, processed: nat, errors: nat)
    requires remote == None || remote == Some([])
    ensures var h := DownloadSpec(t.processedFiles, remote, fetched, Handoff([], staged, 0));
      h.queue == [] && !Consume(t, h.queue, h.staged, processed, errors, true).finished
  {
  }

  /** Corrected: the load worker returns whatever the catalog gives, and where
      the catalog is not empty both versions hand over the same queue. */
  lemma DownloadTerminatedEndsLoadWorker(t: Tables, remote: Option<seq<string>>, fetched: map<string, Bundle>,
                                         h: Handoff, processed: nat, errors: nat, reenqueue: bool)
    ensures var d := DownloadTerminated(t.processedFiles, remote, fetched, h);
      Consume(t, d.queue, d.staged, processed, errors, reenqueue).finished
    ensures remote.Some? && remote.value != [] ==>
              DownloadTerminated(t.processedFiles, remote, fetched, h) == DownloadSpec(t.processedFiles, remote, fetched, h)
  {
    var d := DownloadTerminated(t.processedFiles, remote, fetched, h);
    assert d.queue[|d.queue| - 1] == Sentinel;
    ConsumeFinishesIff(t, d.queue, d.staged, processed, errors, reenqueue);
  }

  /** With a non-empty catalog the queue gains one path per work-list name whose
      fetch succeeds, in work-list order, then the sentinel, last. */
  lemma DownloadSpecQueue(done: set<string>, names: seq<string>, fetched: map<string, Bundle>, h: Handoff)
    requires names != []
    ensures var d := DownloadSpec(done, Some(names), fetched, h);
      |d.queue| > |h.queue| && d.queue[..|h.queue|] == h.queue && d.queue[|d.queue| - 1] == Sentinel &&
      (forall i :: |h.queue| <= i < |d.queue| - 1 ==>
         d.queue[i].Path? && d.queue[i].name in names && d.queue[i].name !in done && d.queue[i].name in fetched) &&
      (forall n :: n in names && n !in done && n in fetched ==> Path(n) in d.queue[|h.queue|..])
    ensures DownloadSpec(done, Some(names), fetched, h).queue ==
              h.queue + PathsOf(FetchedNames(WorkList(names, done), fetched)) + [Sentinel]
  {
    DownloadSpecMembers(done, names, fetched, h);
    FetchAllQueue(WorkList(names, done), fetched, h);
  }

  lemma DownloadSpecMembers(done: set<string>, names: seq<string>, fetched: map<string, Bundle>, h: Handoff)
    requires names != []
    ensures var d := DownloadSpec(done, Some(names), fetched, h);
      |d.queue| > |h.queue| && d.queue[..|h.queue|] == h.queue && d.queue[|d.queue| - 1] == Sentinel &&
      (forall i :: |h.queue| <= i < |d.queue| - 1 ==>
         d.queue[i].Path? && d.queue[i].name in names && d.queue[i].name !in done && d.queue[i].name in fetched) &&
      (forall n :: n in names && n !in done && n in fetched ==> Path(n) in d.queue[|h.queue|..])
  {
    var w := WorkList(names, done);
    FetchAllSpec(w, fetched, h);
    var f := FetchAll(w, fetched, h);
    var d := DownloadSpec(done, Some(names), fetched, h);
    assert d.queue == f.queue + [Sentinel];
    assert d.queue[..|h.queue|] == f.queue[..|h.queue|];
    forall n | n in names && n !in done && n in fetched ensures Path(n) in d.queue[|h.queue|..] {
      assert Path(n) in f.queue[|h.queue|..];
      assert d.queue[|h.queue|..] == f.queue[|h.queue|..] + [Sentinel];
    }
  }


  // ----- Stale sentinel across runs of the main loop -----

  /** As written (etl/loader_pipeline.py): a run that ends puts the sentinel back
      on the module-level queue. When the main loop starts another run, because
      some file was skipped or failed, that run's load worker takes the stale
      sentinel first and loads none of the files just downloaded. */
  lemma StaleSentinelSkipsNextRun(t: Tables, names: seq<string>, fetched: map<string, Bundle>,
                                  staged: map<string, Bundle>, processed: nat, errors: nat)
    requires names != []
    ensures var d := DownloadSpec(t.processedFiles, Some(names), fetched, Handoff([Sentinel], staged, 0));
      var r := Consume(t, d.queue, d.staged, processed, errors, true);
      r.finished && r.tables == t && r.processed == processed
  {
    var h := Handoff([Sentinel], staged, 0);
    FetchAllSpec(WorkList(names, t.processedFiles), fetched, h);
  }

  /** Corrected: a load worker that does not put the sentinel back leaves the
      queue empty after a run, so the next run loads every file it downloads. */
  lemma NoReenqueueNextRunLoads(t: Tables, names: seq<string>, fetched: map<string, Bundle>,
                                staged: map<string, Bundle>, processed: nat, errors: nat)
    requires names != []
    ensures Consume(t, [Sentinel], staged, processed, errors, false).queue == []
    ensures var d := DownloadSpec(t.processedFiles, Some(names), fetched, Handoff([], staged, 0));
      forall n :: n in names && n !in t.processedFiles && n in fetched && LoadBundle(fetched[n]).Loaded? ==>
        n in Consume(t, d.queue, d.staged, processed, errors, false).tables.processedFiles
  {
    var d := DownloadSpec(t.processedFiles, Some(names), fetched, Handoff([], staged, 0));
    DownloadSpecQueue(t.processedFiles, names, fetched, Handoff([], staged, 0));
    var f := FetchAll(WorkList(names, t.processedFiles), fetched, Handoff([], staged, 0));
    FetchAllSpec(WorkList(names, t.processedFiles), fetched, Handoff([], staged, 0));
    PendingOfPaths(d.queue);
    ConsumeMarksLoaded(t, d.queue, d.staged, processed, errors, false);
    forall n | n in names && n !in t.processedFiles && n in fetched && LoadBundle(fetched[n]).Loaded?
      ensures n in Pending(d.queue) && BundleAt(d.staged, n) == fetched[n]
    {
      assert Path(n) in d.queue[0..];
      var i :| 0 <= i < |d.queue| && d.queue[i] == Path(n);
      assert i < |d.queue| - 1;
    }
  }

  /** In a queue of paths closed by one sentinel, the pending names are the paths. */
  lemma {:induction false} PendingOfPaths(queue: seq<QueueItem>)
    requires queue != [] && queue[|queue| - 1] == Sentinel
    requires forall i :: 0 <= i < |queue| - 1 ==> queue[i].Path?
    ensures forall i :: 0 <= i < |queue| - 1 ==> queue[i].name in Pending(queue)
  {
    if |queue| > 1 {
      PendingOfPaths(queue[1..]);
      forall i | 0 <= i < |queue| - 1 ensures queue[i].name in Pending(queue) {
        if i > 0 {
          assert queue[i] == queue[1..][i - 1];
        }
      }
    }
  }

  // ----- A worked run -----

  /** A bundle with one Patient entry and one Condition entry. */
  function PatientBundle(id: string, gender: string, code: string): Bundle
  {
    Bundle([Entry(Patient(Some(id), Some(gender))), Entry(Condition(Text(code)))])
  }

  /** A bundle with a Condition entry and no Patient entry. */
  function NoPatientBundle(code: string): Bundle
  {
    Bundle([Entry(Condition(Text(code)))])
  }

  predicate CleanCode(code: string)
  {
    code != "" && forall i :: 0 <= i < |code| ==> !IsSeparator(code[i])
  }

  lemma TwoFileDownload(fetched: map<string, Bundle>)
    requires "a.json" in fetched && "b.json" in fetched
    ensures var d := DownloadSpec({}, Some(["a.json", "b.json"]), fetched, Handoff([], map[], 0));
      d.queue == [Path("a.json"), Path("b.json"), Sentinel] &&
      d.staged == map["a.json" := fetched["a.json"], "b.json" := fetched["b.json"]]
  {
    var h0 := Handoff([], map[], 0);
    assert ["a.json"][..0] == [];
    assert ["a.json", "b.json"][..1] == ["a.json"];
    assert WorkList(["a.json", "b.json"], {}) == ["a.json", "b.json"];
    assert FetchAll(["a.json"], fetched, h0) == Handoff([Path("a.json")], map["a.json" := fetched["a.json"]], 1);
  }

  lemma TwoFileBundles(id: string, gender: string, code: string, other: string)
    requires CleanCode(code)
    ensures LoadBundle(PatientBundle(id, gender, code)) == Loaded(Some(id), gender, [code], [])
    ensures LoadBundle(NoPatientBundle(other)) == PatientMissing
  {
    var e0, e1 := Entry(Patient(Some(id), Some(gender))), Entry(Condition(Text(code)));
    var es := [e0, e1];
    assert es[..1] == [e0] && [e0][..0] == [];
    assert Extract([e0]) == Rows([], []);
    CleanTextKeepsClean(code);
    assert Extract(es) == ExtractStep(Rows([], []), e1) == Rows([code], []);
    var only := NoPatientBundle(other).entries;
    assert only[1..] == [];
    assert FindPatient(only) == FindPatient([]);
  }

  /** A catalog listing a valid bundle `a.json` (patient `id`, gender `gender`,
      one condition `code`) and `b.json` without a Patient, loaded into an
      empty store: one patient row, one condition row, only `a.json` in the
      ledger, one processed file and no error. */
  lemma TwoFileRun(id: string, gender: string, code: string, other: string)
    requires CleanCode(code)
    ensures var fetched := map["a.json" := PatientBundle(id, gender, code), "b.json" := NoPatientBundle(other)];
      var d := DownloadSpec({}, Some(["a.json", "b.json"]), fetched, Handoff([], map[], 0));
      var r := Consume(EmptyTables, d.queue, d.staged, 0, 0, true);
      r.finished && r.tables.patients == map[id := gender] && r.tables.nullIdPatients == [] &&
      r.tables.conditions == [Row(Some(id), code)] && r.tables.medications == [] &&
      r.tables.processedFiles == {"a.json"} && r.processed == 1 && r.errors == 0
  {
    var fetched := map["a.json" := PatientBundle(id, gender, code), "b.json" := NoPatientBundle(other)];
    TwoFileDownload(fetched);
    TwoFileBundles(id, gender, code, other);
    var d := DownloadSpec({}, Some(["a.json", "b.json"]), fetched, Handoff([], map[], 0));
    var q := d.queue;
    var t1 := Tables(map[id := gender], [], [Row(Some(id), code)], [], {"a.json"});
    TwoFileSteps(id, gender, code, d.staged);
    ConsumeProcessedThenSkipped(EmptyTables, d.staged, "a.json", "b.json", t1);
  }

  lemma ConsumeProcessedThenSkipped(t: Tables, staged: map<string, Bundle>, a: string, b: string, t1: Tables)
    requires ProcessOne(t, staged, a) == Step(Processed, t1)
    requires ProcessOne(t1, staged, b) == Step(SkippedNoPatient, t1)
    ensures Consume(t, [Path(a), Path(b), Sentinel], staged, 0, 0, true) == Drain(t1, [Sentinel], 1, 0, true)
  {
    var q := [Path(a), Path(b), Sentinel];
    assert q[1..] == [Path(b), Sentinel] && q[1..][1..] == [Sentinel];
    assert Consume(t, q, staged, 0, 0, true) == Consume(t1, q[1..], staged, 1, 0, true);
    assert Consume(t1, q[1..], staged, 1, 0, true) == Consume(t1, [Sentinel], staged, 1, 0, true);
    assert [Sentinel][1..] + [Sentinel] == [Sentinel];
  }

  lemma TwoFileSteps(id: string, gender: string, code: string, staged: map<string, Bundle>)
    requires "a.json" in staged && "b.json" in staged
    requires LoadBundle(staged["a.json"]) == Loaded(Some(id), gender, [code], [])
    requires LoadBundle(staged["b.json"]) == PatientMissing
    ensures var t1 := Tables(map[id := gender], [], [Row(Some(id), code)], [], {"a.json"});
      ProcessOne(EmptyTables, staged, "a.json") == Step(Processed, t1) &&
      ProcessOne(t1, staged, "b.json") == Step(SkippedNoPatient, t1)
  {
    assert RowsFor(Some(id), [code]) == [Row(Some(id), code)];
  }

  /** One more condition text appends one more row. */
  lemma AppendConditionSnoc(t: Tables, id: Option<string>, cs: seq<string>, ms: seq<string>, x: string)
    ensures AppendRows(t, id, cs + [x], ms) == AppendRows(t, id, cs, ms).(conditions := AppendRows(t, id, cs, ms).conditions + [Row(id, x)])
  {
    RowsForSnoc(id, cs, x);
    assert t.conditions + (RowsFor(id, cs) + [Row(id, x)]) == t.conditions + RowsFor(id, cs) + [Row(id, x)];
  }

  /** One more medication text appends one more row. */
  lemma AppendMedicationSnoc(t: Tables, id: Option<string>, cs: seq<string>, ms: seq<string>, x: string)
    ensures AppendRows(t, id, cs, ms + [x]) == AppendRows(t, id, cs, ms).(medications := AppendRows(t, id, cs, ms).medications + [Row(id, x)])
  {
    RowsForSnoc(id, ms, x);
    assert t.medications + (RowsFor(id, ms) + [Row(id, x)]) == t.medications + RowsFor(id, ms) + [Row(id, x)];
  }

  /** What the entry loop reads from one entry: the cleaned text (None when
      reading raises, "" when the entry adds no row) and whether it is a
      condition. */
  method ReadEntry(entry: Entry) returns (text: Option<string>, isCondition: bool)
    ensures forall cs, ms ::
              ExtractStep(Rows(cs, ms), entry) ==
                (if text.None? then Raises
                 else if text.value == "" then Rows(cs, ms)
                 else if isCondition then Rows(cs + [text.value], ms)
                 else Rows(cs, ms + [text.value]))
  {
    text, isCondition := Some(""), false;
    if entry.BadEntry? {
      text := None;
    } else if entry.resource.Condition? {
      text := ReadText(entry.resource.code);
      isCondition := true;
    } else if entry.resource.MedicationRequest? {
      text := ReadText(entry.resource.medication);
    }
  }

  // ----- The store and the workers as objects -----

  /** The SQLite database behind one connection, with the content as of the
      last commit, which a rollback restores. */
  class PrimaryStore {
    var patients: map<string, string>
    var nullIdPatients: seq<string>
    var conditions: seq<Row>
    var medications: seq<Row>
    var processedFiles: set<string>
    var committed: Tables

    function Content(): Tables
      reads this
    {
      Tables(patients, nullIdPatients, conditions, medications, processedFiles)
    }

    /** No write is waiting for a commit. */
    predicate Settled()
      reads this
    {
      committed == Content()
    }

    constructor (t: Tables)
      ensures Content() == t && Settled()
    {
      patients, nullIdPatients, conditions, medications, processedFiles := t.patients, t.nullIdPatients, t.conditions, t.medications, t.processedFiles;
      committed := t;
    }

    /** `is_file_processed`. */
    method IsFileProcessed(name: string) returns (b: bool)
      ensures b <==> name in Content().processedFiles
    {
      b := name in processedFiles;
    }

    /** `mark_file_as_processed`: insert and commit; a duplicate name raises an
        integrity error that is caught and rolled back. */
    method MarkFileAsProcessed(name: string)
      modifies this
      ensures name !in old(processedFiles) ==> Content() == Mark(old(Content()), name)
      ensures name in old(processedFiles) ==> Content() == old(committed)
      ensures Settled()
    {
      if name in processedFiles {
        Rollback();
      } else {
        processedFiles := processedFiles + {name};
        Commit();
      }
    }

    method InsertPatientOrIgnore(id: Option<string>, gender: string)
      modifies this
      ensures Content() == InsertPatient(old(Content()), id, gender)
      ensures committed == old(committed)
    {
      match id {
        case None =>
          nullIdPatients := nullIdPatients + [gender];
        case Some(k) =>
          if k !in patients {
            patients := patients[k := gender];
          }
      }
    }

    /** `INSERT INTO conditions`; the foreign key holds for the rows the load worker writes. */
    method InsertCondition(id: Option<string>, text: string)
      requires id.Some? ==> id.value in patients
      modifies this
      ensures Content() == old(Content()).(conditions := old(conditions) + [Row(id, text)])
      ensures committed == old(committed)
    {
      conditions := conditions + [Row(id, text)];
    }

    method InsertMedication(id: Option<string>, text: string)
      requires id.Some? ==> id.value in patients
      modifies this
      ensures Content() == old(Content()).(medications := old(medications) + [Row(id, text)])
      ensures committed == old(committed)
    {
      medications := medications + [Row(id, text)];
    }

    method Commit()
      modifies this
      ensures Content() == old(Content()) && Settled()
    {
      committed := Content();
    }

    method Rollback()
      modifies this
      ensures Content() == old(committed) && Settled()
    {
      patients, nullIdPatients, conditions, medications, processedFiles :=
        committed.patients, committed.nullIdPatients, committed.conditions, committed.medications, committed.processedFiles;
    }
  }

  /** The module-level state shared by the two workers: the queue, the staged
      files, the counters, and the store both connect to. */
  class Ingestion {
    const db: PrimaryStore
    var queue: seq<QueueItem>
    var staged: map<string, Bundle>
    var downloadedCount: nat
    var processedCount: nat
    var errorsCount: nat

    constructor (store: PrimaryStore)
      ensures db == store && queue == [] && staged == map[]
      ensures downloadedCount == 0 && processedCount == 0 && errorsCount == 0
    {
      db := store;
      queue, staged := [], map[];
      downloadedCount, processedCount, errorsCount := 0, 0, 0;
    }

    /** The names of the catalog not yet in the ledger, in catalog order. */
    method Unprocessed(names: seq<string>) returns (toDownload: seq<string>)
      ensures toDownload == WorkList(names, db.Content().processedFiles)
    {
      toDownload := [];
      var i := 0;
      while i < |names|
        invariant 0 <= i <= |names|
        invariant toDownload == WorkList(names[..i], db.Content().processedFiles)
      {
        assert names[..i + 1][..i] == names[..i];
        var done := db.IsFileProcessed(names[i]);
        if !done {
          toDownload := toDownload + [names[i]];
        }
        i := i + 1;
      }
      assert names[..i] == names;
    }

    /** The fetch loop over the work list. */
    method FetchEach(toDownload: seq<string>, fetched: map<string, Bundle>)
      modifies this
      ensures Handoff(queue, staged, downloadedCount) == FetchAll(toDownload, fetched, old(Handoff(queue, staged, downloadedCount)))
      ensures processedCount == old(processedCount) && errorsCount == old(errorsCount)
    {
      ghost var h0 := Handoff(queue, staged, downloadedCount);
      var j := 0;
      while j < |toDownload|
        invariant 0 <= j <= |toDownload|
        invariant Handoff(queue, staged, downloadedCount) == FetchAll(toDownload[..j], fetched, h0)
        invariant processedCount == old(processedCount) && errorsCount == old(errorsCount)
      {
        assert toDownload[..j + 1][..j] == toDownload[..j];
        var name := toDownload[j];
        if name in fetched {
          staged := staged[name := fetched[name]];
          queue := queue + [Path(name)];
          downloadedCount := downloadedCount + 1;
        } else {
          staged := staged - {name};
        }
        j := j + 1;
      }
      assert toDownload[..j] == toDownload;
    }

    /** `download_files`: fetch the catalog, queue each unprocessed name whose
        fetch succeeds, then the sentinel. */
    method DownloadFiles(pages: seq<Catalog.Page>, fetched: map<string, Bundle>)
      modifies this
      ensures var h := DownloadSpec(db.Content().processedFiles, Catalog.RemoteFiles(pages), fetched,
                                    Handoff(old(queue), old(staged), old(downloadedCount)));
        queue == h.queue && staged == h.staged && downloadedCount == h.downloaded
      ensures processedCount == old(processedCount) && errorsCount == old(errorsCount)
    {
      var remote := Catalog.GetRemoteFiles(pages);
      if remote.None? || remote.value == [] {
        return;
      }
      var toDownload := Unprocessed(remote.value);
      FetchEach(toDownload, fetched);
      queue := queue + [Sentinel];
    }

    /** The entry loop of `process_files` for one bundle: insert a row for each
        non-empty cleaned condition or medication text; false when an entry
        raises (the inserts so far are left for the caller to roll back). */
    method InsertEntryRows(id: Option<string>, entries: seq<Entry>) returns (ok: bool)
      requires id.Some? ==> id.value in db.patients
      modifies db
      ensures ok <==> Extract(entries).Rows?
      ensures ok ==> db.Content() == AppendRows(old(db.Content()), id, Extract(entries).conditions, Extract(entries).medications)
      ensures db.committed == old(db.committed)
    {
      var i := 0;
      while i < |entries|
        invariant 0 <= i <= |entries|
        invariant Extract(entries[..i]).Rows?
        invariant db.Content() == AppendRows(old(db.Content()), id, Extract(entries[..i]).conditions, Extract(entries[..i]).medications)
        invariant db.committed == old(db.committed)
        invariant id.Some? ==> id.value in db.patients
      {
        var before := Extract(entries[..i]);
        ExtractSnoc(entries, i);
        var text, isCondition := ReadEntry(entries[i]);
        assert Extract(entries[..i + 1]) == ExtractStep(Rows(before.conditions, before.medications), entries[i]);
        if text.None? {
          ExtractRaisesExtends(entries, i + 1);
          return false;
        }
        if text.value != "" {
          if isCondition {
            AppendConditionSnoc(old(db.Content()), id, before.conditions, before.medications, text.value);
            db.InsertCondition(id, text.value);
          } else {
            AppendMedicationSnoc(old(db.Content()), id, before.conditions, before.medications, text.value);
            db.InsertMedication(id, text.value);
          }
        }
        i := i + 1;
      }
      assert entries[..i] == entries;
      return true;
    }

    /** One turn of the `process_files` loop for a queued path. */
    method ProcessFile(name: string) returns (result: FileResult)
      requires db.Settled()
      modifies this, db
      ensures db.Settled()
      ensures result == ProcessOne(old(db.Content()), staged, name).result
      ensures db.Content() == ProcessOne(old(db.Content()), staged, name).tables
      ensures processedCount == old(processedCount) + (if result == Processed then 1 else 0)
      ensures errorsCount == old(errorsCount) + (if result == Failed then 1 else 0)
      ensures queue == old(queue) && staged == old(staged) && downloadedCount == old(downloadedCount)
    {
      var done := db.IsFileProcessed(name);
      if done {
        return AlreadyProcessed;
      }
      var bundle := BundleAt(staged, name);
      if bundle.Unreadable? {
        errorsCount := errorsCount + 1;
        db.Rollback();
        return Failed;
      }
      var entries := bundle.entries;
      var search := FindPatient(entries);
      if search.SearchRaises? {
        errorsCount := errorsCount + 1;
        db.Rollback();
        return Failed;
      }
      if search.NoPatient? {
        return SkippedNoPatient;
      }
      var id, gender := search.id, GenderOrUnknown(search.gender);
      db.InsertPatientOrIgnore(id, gender);
      var ok := InsertEntryRows(id, entries);
      if !ok {
        errorsCount := errorsCount + 1;
        db.Rollback();
        return Failed;
      }
      db.Commit();
      db.MarkFileAsProcessed(name);
      processedCount := processedCount + 1;
      return Processed;
    }

    /** `process_files`: load queued files until the sentinel, which is put back
        on the queue. Returns false where the worker would wait on an empty
        queue for ever. */
    method ProcessFiles() returns (finished: bool)
      requires db.Settled()
      modifies this, db
      ensures db.Settled()
      ensures var r := Consume(old(db.Content()), old(queue), staged, old(processedCount), old(errorsCount), true);
        db.Content() == r.tables && queue == r.queue && processedCount == r.processed &&
        errorsCount == r.errors && finished == r.finished
      ensures staged == old(staged) && downloadedCount == old(downloadedCount)
    {
      while true
        invariant db.Settled()
        invariant Consume(db.Content(), queue, staged, processedCount, errorsCount, true) ==
                  Consume(old(db.Content()), old(queue), staged, old(processedCount), old(errorsCount), true)
        invariant staged == old(staged) && downloadedCount == old(downloadedCount)
        decreases |queue|
      {
        if queue == [] {
          return false;
        }
        var item := queue[0];
        queue := queue[1..];
        if item.Sentinel? {
          queue := queue + [Sentinel];
          return true;
        }
        var result := ProcessFile(item.name);
      }
    }
  }
}

/** A clinical-record bundle as the loaders see it once `json.load` has run:
    the list under 'entry', each entry's 'resource', and the few fields the
    loaders read. Every shape the loaders' `.get` chains cannot read is a
    distinct case, because reading it raises. */
module Fhir {
  import opened Base

  /** The text under a condition's 'code' or a medication request's
      'medicationCodeableConcept', read as `resource.get(field, {}).get('text', '')`. */
  datatype Label =
    | Absent           // the field or its 'text' key is missing: read as ''
    | Null             // 'text' is JSON null: read as None
    | Text(s: string)
    | Malformed        // the field is not a JSON object: `.get` raises

  datatype Resource =
    | Patient(id: Option<string>, gender: Option<string>)   // missing keys are None
    | Condition(code: Label)
    | MedicationRequest(medication: Label)
    | OtherResource    // any other resourceType, or an entry without 'resource'

  /** `BadEntry`: the entry or its 'resource' is not a JSON object, so `.get` raises. */
  datatype Entry = Entry(resource: Resource) | BadEntry

  /** `Unreadable`: the staged file cannot be opened, is not JSON, or is not a JSON object. */
  datatype Bundle = Unreadable | Bundle(entries: seq<Entry>)

  /** Outcome of the generator search for the first Patient entry. */
  datatype PatientSearch = Found(id: Option<string>, gender: Option<string>) | NoPatient | SearchRaises

  /** The search reads this entry and moves on to the next. */
  predicate Passes(e: Entry) { e.Entry? && !e.resource.Patient? }

  /** Entry `k` is examined by the search: every entry before it passed. */
  predicate Reached(entries: seq<Entry>, k: int)
  {
    0 <= k < |entries| && forall j :: 0 <= j < k ==> Passes(entries[j])
  }

  /** `next((e['resource'] for e in entries if e.get('resource', {}).get('resourceType') == 'Patient'), None)`. */
  function FindPatient(entries: seq<Entry>): PatientSearch
  {
    if entries == [] then NoPatient
    else match entries[0]
      case BadEntry => SearchRaises
      case Entry(Patient(id, gender)) => Found(id, gender)
      case Entry(_) => FindPatient(entries[1..])
  }

  /** The search finds the first Patient entry; it raises when it reaches an
      unreadable entry first; it finds nothing only when every entry is a
      readable non-Patient entry. */
  lemma {:induction false} FindPatientSpec(entries: seq<Entry>)
    ensures FindPatient(entries).NoPatient? <==> forall j :: 0 <= j < |entries| ==> Passes(entries[j])
    ensures FindPatient(entries).SearchRaises? <==> exists k :: Reached(entries, k) && entries[k].BadEntry?
    ensures FindPatient(entries).Found? <==> exists k :: Reached(entries, k) && entries[k].Entry? && entries[k].resource.Patient?
    ensures FindPatient(entries).Found? ==>
              exists k :: Reached(entries, k) && entries[k] == Entry(Patient(FindPatient(entries).id, FindPatient(entries).gender))
  {
    if entries != [] {
      var tail := entries[1..];
      FindPatientSpec(tail);
      assert Reached(entries, 0);
      if Passes(entries[0]) {
        forall k | Reached(tail, k) ensures Reached(entries, k + 1) {
          forall j | 0 <= j < k + 1 ensures Passes(entries[j]) {
            if j > 0 { assert entries[j] == tail[j - 1]; }
          }
        }
        forall k | Reached(entries, k) && k > 0 ensures Reached(tail, k - 1) {
          forall j | 0 <= j < k - 1 ensures Passes(tail[j]) { assert Passes(entries[j + 1]); }
        }
        if FindPatient(tail).NoPatient? {
          forall j | 0 <= j < |entries| ensures Passes(entries[j]) {
            if j > 0 { assert entries[j] == tail[j - 1]; }
          }
        }
        if forall j :: 0 <= j < |entries| ==> Passes(entries[j]) {
          forall j | 0 <= j < |tail| ensures Passes(tail[j]) { assert Passes(entries[j + 1]); }
        }
        if FindPatient(tail).SearchRaises? {
          var k :| Reached(tail, k) && tail[k].BadEntry?;
          assert Reached(entries, k + 1) && entries[k + 1].BadEntry?;
        }
        if FindPatient(tail).Found? {
          var k :| Reached(tail, k) && tail[k] == Entry(Patient(FindPatient(tail).id, FindPatient(tail).gender));
          assert Reached(entries, k + 1);
          assert entries[k + 1] == tail[k];
        }
        if exists k :: Reached(entries, k) && entries[k].BadEntry? {
          var k :| Reached(entries, k) && entries[k].BadEntry?;
          assert Reached(tail, k - 1) && tail[k - 1].BadEntry?;
        }
        if exists k :: Reached(entries, k) && entries[k].Entry? && entries[k].resource.Patient? {
          var k :| Reached(entries, k) && entries[k].Entry? && entries[k].resource.Patient?;
          assert Reached(tail, k - 1) && tail[k - 1] == entries[k];
        }
      } else {
        forall k | Reached(entries, k) ensures k == 0 { }
      }
    }
  }

  /** What the entries contribute one by one, read from the first entry on:
      the reference form of the row lists an entry loop builds. */
  function Gather(entries: seq<Entry>, f: Entry -> seq<string>): seq<string>
  {
    if entries == [] then [] else f(entries[0]) + Gather(entries[1..], f)
  }

  lemma {:induction false} GatherSnoc(entries: seq<Entry>, e: Entry, f: Entry -> seq<string>)
    ensures Gather(entries + [e], f) == Gather(entries, f) + f(e)
  {
    if entries == [] {
      assert [e][1..] == [];
    } else {
      calc {
        Gather(entries + [e], f);
        { assert (entries + [e])[0] == entries[0] && (entries + [e])[1..] == entries[1..] + [e]; }
        f(entries[0]) + Gather(entries[1..] + [e], f);
        { GatherSnoc(entries[1..], e, f); }
        f(entries[0]) + (Gather(entries[1..], f) + f(e));
        (f(entries[0]) + Gather(entries[1..], f)) + f(e);
      }
    }
  }

  /** `patient.get('gender', 'unknown')`. */
  function GenderOrUnknown(gender: Option<string>): string
  {
    match gender
    case None => "unknown"
    case Some(g) => g
  }
}

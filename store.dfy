/** Row-level content of the relational stores and the handoff queue between
    the download and the load workers. */
module Store {
  import opened Base

  /** A condition or medication row: the owning patient id (NULL when the
      bundle's Patient had no id) and the label text. */
  datatype Row = Row(patientId: Option<string>, text: string)

  /** Content of the SQLite primary store. SQLite lets a TEXT PRIMARY KEY
      column hold NULL and treats NULLs as distinct, so rows with a NULL
      patient id never collide: they are kept apart, one gender per row. */
  datatype Tables = Tables(
    patients: map<string, string>,
    nullIdPatients: seq<string>,
    conditions: seq<Row>,
    medications: seq<Row>,
    processedFiles: set<string>)

  /** Content of the PostgreSQL store: patient_id is a PRIMARY KEY there, so
      NOT NULL. */
  datatype PgTables = PgTables(
    patients: map<string, string>,
    conditions: seq<Row>,
    medications: seq<Row>,
    processedFiles: set<string>)

  const EmptyTables := Tables(map[], [], [], [], {})
  const EmptyPgTables := PgTables(map[], [], [], {})

  /** An item of `download_queue`: the path of a staged file, identified by
      its file name (`os.path.basename` of it), or the `None` sentinel. */
  datatype QueueItem = Path(name: string) | Sentinel

  /** The rows one file appends for one patient id, in label order. */
  function RowsFor(id: Option<string>, texts: seq<string>): (rows: seq<Row>)
    ensures |rows| == |texts|
    ensures forall i :: 0 <= i < |texts| ==> rows[i] == Row(id, texts[i])
  {
    if texts == [] then [] else [Row(id, texts[0])] + RowsFor(id, texts[1..])
  }
}

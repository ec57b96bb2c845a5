/**
 * handleUpload as a whole: read the archive, find export.xml, parse it, keep
 * the records of the allowed types, refuse an empty selection, map the records
 * to rows and send them in batches, showing a status at each step.
 */
module HealthUpload {
  import opened Wrappers
  import opened UploadStatus
  import opened HealthRecords
  import opened BatchLoader

  /** What JSZip makes of the chosen file: its entries in key order, or a load failure. */
  datatype Archive = Unreadable | Archive(entries: seq<ZipEntry>)

  /** `parsed?.HealthData?.Record` as the XML parser leaves it. */
  datatype RecordField =
    | NoRecords                         // HealthData or Record absent: `?? []` gives no records
    | SingleRecord(record: RawRecord)   // one <Record> only: an object, not an array
    | RecordList(records: seq<RawRecord>)

  /** The outcome of parsing the document text. */
  datatype ParsedXml = Malformed | Parsed(field: RecordField)

  /** The XML parser, abstracted. */
  type XmlParser = string -> ParsedXml

  /** Where the steps before the first insert end: a terminal status, or the rows to send. */
  datatype Prepared = Halt(status: Status) | Ready(rows: seq<Row>)

  /** The records of an export that are kept: allowed types, in order, cut to the limit. */
  function Selected(records: seq<RawRecord>, limit: nat): (kept: seq<RawRecord>)
    ensures |kept| <= |Filter(records)| <= |records|
    ensures kept == Filter(records)[..|kept|]
    ensures forall j :: 0 <= j < |kept| ==> IsAllowed(kept[j]) && kept[j] in records
  {
    var kept := Truncate(Filter(records), limit);
    assert forall j :: 0 <= j < |kept| ==> kept[j] in Filter(records);
    kept
  }

  /** From the parsed records to the rows, or to "no matching records". */
  function SelectRows(records: seq<RawRecord>, userId: string, parseNumber: NumberParser, limit: nat): Prepared {
    var kept := Selected(records, limit);
    if |kept| == 0 then Halt(NoMatchingRecords) else Ready(MapRows(kept, userId, parseNumber))
  }

  /**
   * What the steps before the first insert produce, with the exception paths
   * (unreadable archive, undecodable entry, unparsable document, a lone record
   * that has no `filter`) as ProcessingError.
   */
  function Prepare(archive: Archive, parseXml: XmlParser, parseNumber: NumberParser, userId: string, limit: nat): (p: Prepared)
    ensures p.Halt? ==> p.status == ExportNotFound || p.status == NoMatchingRecords || p.status == ProcessingError
    ensures p.Ready? ==> p.rows != [] && forall j :: 0 <= j < |p.rows| ==>
      p.rows[j].userId == userId && p.rows[j].recordType in AllowedTypes
  {
    match archive
    case Unreadable => Halt(ProcessingError)
    case Archive(entries) =>
      match FindExport(entries)
      case None => Halt(ExportNotFound)
      case Some(k) =>
        match entries[k].text
        case None => Halt(ProcessingError)
        case Some(xml) =>
          match parseXml(xml)
          case Malformed => Halt(ProcessingError)
          case Parsed(NoRecords) => SelectRows([], userId, parseNumber, limit)
          case Parsed(SingleRecord(_)) => Halt(ProcessingError)
          case Parsed(RecordList(records)) => SelectRows(records, userId, parseNumber, limit)
  }

  /** The records the document yields once the export entry is found and parsed, if any. */
  function DocumentRecords(archive: Archive, parseXml: XmlParser): Option<seq<RawRecord>> {
    match archive
    case Unreadable => None
    case Archive(entries) =>
      match FindExport(entries)
      case None => None
      case Some(k) =>
        match entries[k].text
        case None => None
        case Some(xml) =>
          match parseXml(xml)
          case Parsed(NoRecords) => Some([])
          case Parsed(RecordList(records)) => Some(records)
          case _ => None
  }

  /** "export.xml not found" is the outcome exactly when no entry path ends in export.xml. */
  lemma NotFoundIff(entries: seq<ZipEntry>, parseXml: XmlParser, parseNumber: NumberParser, userId: string, limit: nat)
    ensures Prepare(Archive(entries), parseXml, parseNumber, userId, limit) == Halt(ExportNotFound)
        <==> forall i :: 0 <= i < |entries| ==> !IsExportPath(entries[i].path)
  {
    if FindExport(entries).Some? {
      var p := Prepare(Archive(entries), parseXml, parseNumber, userId, limit);
      assert p.Ready? || p.status != ExportNotFound;
    }
  }

  /**
   * Once the document's records are in hand, "no matching health records" is the
   * outcome exactly when none of them has an allowed type, whatever the limit.
   */
  lemma NoMatchesIff(archive: Archive, parseXml: XmlParser, parseNumber: NumberParser, userId: string, limit: nat)
    requires DocumentRecords(archive, parseXml).Some?
    ensures Prepare(archive, parseXml, parseNumber, userId, limit) == Halt(NoMatchingRecords)
        <==> forall r :: r in DocumentRecords(archive, parseXml).value ==> !IsAllowed(r)
  {
    var records := DocumentRecords(archive, parseXml).value;
    assert Prepare(archive, parseXml, parseNumber, userId, limit) == SelectRows(records, userId, parseNumber, limit);
    TruncateEmpty(Filter(records), limit);
  }

  /**
   * When rows are produced, they are the rows of the leading allowed records of
   * the document, in order: all of them when the limit is 0, else at most `limit`.
   */
  lemma ReadyRows(archive: Archive, parseXml: XmlParser, parseNumber: NumberParser, userId: string, limit: nat)
    requires Prepare(archive, parseXml, parseNumber, userId, limit).Ready?
    ensures DocumentRecords(archive, parseXml).Some?
    ensures var rows := Prepare(archive, parseXml, parseNumber, userId, limit).rows;
      var kept := Filter(DocumentRecords(archive, parseXml).value);
      && |rows| <= |kept|
      && (limit == 0 ==> |rows| == |kept|)
      && (limit > 0 ==> |rows| == Min(limit, |kept|))
      && forall j :: 0 <= j < |rows| ==> rows[j] == ToRow(kept[j], userId, parseNumber)
  {
    var records := DocumentRecords(archive, parseXml).value;
    assert Prepare(archive, parseXml, parseNumber, userId, limit) == SelectRows(records, userId, parseNumber, limit);
  }

  /** A test limit of 2000 over 12000 qualifying records: 2000 rows, sent in a single call. */
  lemma TestLimitExample(archive: Archive, parseXml: XmlParser, parseNumber: NumberParser, userId: string)
    requires DocumentRecords(archive, parseXml).Some?
    requires |Filter(DocumentRecords(archive, parseXml).value)| == 12000
    ensures Prepare(archive, parseXml, parseNumber, userId, 2000).Ready?
    ensures |Prepare(archive, parseXml, parseNumber, userId, 2000).rows| == 2000
    ensures |Chunks(Prepare(archive, parseXml, parseNumber, userId, 2000).rows, BatchSize)| == 1
  {
    var records := DocumentRecords(archive, parseXml).value;
    assert Prepare(archive, parseXml, parseNumber, userId, 2000) == SelectRows(records, userId, parseNumber, 2000);
    ChunkCount(Prepare(archive, parseXml, parseNumber, userId, 2000).rows, BatchSize);
  }

  /**
   * The statuses of one upload: each one before the last reports progress, with
   * counts that never decrease and never exceed the total, and the last one is
   * terminal.
   */
  lemma {:induction false} TraceShape(rows: seq<Row>, insert: Inserter)
    ensures var trace := ExpectedTrace(rows, BatchSize, insert);
      && trace != [] && IsTerminal(trace[|trace| - 1])
      && (forall j :: 0 <= j < |trace| - 1 ==>
            trace[j].Uploading? && trace[j].total == |rows| && trace[j].inserted <= |rows|)
      && (forall j, j' :: 0 <= j < j' < |trace| - 1 ==> trace[j].inserted <= trace[j'].inserted)
  {
    var n := |rows|;
    var chunks := Chunks(rows, BatchSize);
    var k := match FirstFailure(chunks, insert) case None => |chunks| case Some(f) => f;
    var progress := Progress(n, BatchSize, k);
    var trace := ExpectedTrace(rows, BatchSize, insert);
    assert trace == progress + [trace[|trace| - 1]];
    forall j | 0 <= j < k
      ensures progress[j] == Uploading(Min((j + 1) * BatchSize, n), n)
    {
      ProgressAt(n, BatchSize, k, j);
    }
  }

  /**
   * handleUpload. Without a file nothing happens. Otherwise the status becomes
   * "Processing file…", and then either one terminal status from the steps
   * before the first insert, with no insert call, or the statuses and calls of
   * the batch loop over the mapped rows.
   */
  method HandleUpload(file: Option<Archive>, userId: string, parseXml: XmlParser,
                      parseNumber: NumberParser, insert: Inserter)
    returns (trace: seq<Status>, calls: seq<seq<Row>>)
    ensures file.None? ==> trace == [] && calls == []
    ensures file.Some? ==>
      match Prepare(file.value, parseXml, parseNumber, userId, LimitForTest)
      case Halt(status) => trace == [Processing, status] && calls == []
      case Ready(rows) =>
        && trace == [Processing] + ExpectedTrace(rows, BatchSize, insert)
        && calls == ExpectedCalls(rows, BatchSize, insert)
  {
    trace, calls := [], [];
    if file.None? {
      return;
    }
    ghost var outcome := Prepare(file.value, parseXml, parseNumber, userId, LimitForTest);
    trace := trace + [Processing];
    var archive := file.value;
    if archive.Unreadable? {
      trace := trace + [ProcessingError];
      return;
    }
    var found := FindExport(archive.entries);
    if found.None? {
      assert outcome == Halt(ExportNotFound);
      trace := trace + [ExportNotFound];
      return;
    }
    var text := archive.entries[found.value].text;
    if text.None? {
      assert outcome == Halt(ProcessingError);
      trace := trace + [ProcessingError];
      return;
    }
    var parsed := parseXml(text.value);
    if parsed.Malformed? {
      assert outcome == Halt(ProcessingError);
      trace := trace + [ProcessingError];
      return;
    }
    var records: seq<RawRecord>;
    match parsed.field {
      case NoRecords =>
        records := [];
      case RecordList(rs) =>
        records := rs;
      case SingleRecord(_) =>
        // `filter` is not a function on a lone object: the catch block reports it
        assert outcome == Halt(ProcessingError);
        trace := trace + [ProcessingError];
        return;
    }
    assert outcome == SelectRows(records, userId, parseNumber, LimitForTest);
    var filtered := Truncate(Filter(records), LimitForTest);
    if |filtered| == 0 {
      trace := trace + [NoMatchingRecords];
      return;
    }
    var rows := MapRows(filtered, userId, parseNumber);
    assert outcome == Ready(rows);
    var uploadTrace, uploadCalls, _ := UploadRows(rows, insert);
    trace := trace + uploadTrace;
    calls := uploadCalls;
  }
}

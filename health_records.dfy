/**
 * The pure steps of the upload pipeline: finding the export document in the
 * archive, keeping the records of the configured types, the test-limit
 * truncation and the mapping of each record to a database row.
 */
module HealthRecords {
  import opened Wrappers

  /** Rows sent in one insert call (BATCH_SIZE). */
  const BatchSize: nat := 5000

  /** Keep only this many filtered records; 0 means no limit (LIMIT_FOR_TEST). */
  const LimitForTest: nat := 0

  /** The record types imported; every other record is dropped. */
  const AllowedTypes: seq<string> := [
    // Quantity
    "HKQuantityTypeIdentifierStepCount",
    "HKQuantityTypeIdentifierHeartRate",
    "HKQuantityTypeIdentifierDistanceWalkingRunning",
    "HKQuantityTypeIdentifierActiveEnergyBurned",
    "HKQuantityTypeIdentifierBodyMass",
    "HKQuantityTypeIdentifierDietaryWater",
    "HKQuantityTypeIdentifierBloodGlucose",
    // Category
    "HKCategoryTypeIdentifierSleepAnalysis",
    "HKCategoryTypeIdentifierMindfulSession"
  ]

  function Min(a: int, b: int): int {
    if a <= b then a else b
  }

  // ---------------------------------------------------------------------------
  // Locating export.xml among the archive's entries

  /** One archive entry: its path and its text, None when it cannot be decompressed. */
  datatype ZipEntry = ZipEntry(path: string, text: Option<string>)

  /** ASCII lower-casing, as String.prototype.toLowerCase does for ASCII letters. */
  function LowerChar(c: char): char {
    if 'A' <= c <= 'Z' then (c as int + 32) as char else c
  }

  function Lower(s: string): string {
    seq(|s|, i requires 0 <= i < |s| => LowerChar(s[i]))
  }

  predicate EndsWith(s: string, suffix: string) {
    |suffix| <= |s| && s[|s| - |suffix|..] == suffix
  }

  const ExportSuffix: string := "export.xml"

  /** The path of the export document: lower-cased, it ends in "export.xml". */
  predicate IsExportPath(path: string) {
    EndsWith(Lower(path), ExportSuffix)
  }

  /**
   * The index of the first entry at or after `from` whose path names the export
   * document, in the archive's key order, or None when there is none.
   */
  function FindExport(entries: seq<ZipEntry>, from: nat := 0): (found: Option<nat>)
    requires from <= |entries|
    ensures found.Some? ==>
      from <= found.value < |entries| && IsExportPath(entries[found.value].path) &&
      forall i :: from <= i < found.value ==> !IsExportPath(entries[i].path)
    ensures found.None? <==> forall i :: from <= i < |entries| ==> !IsExportPath(entries[i].path)
    decreases |entries| - from
  {
    if from == |entries| then None
    else if IsExportPath(entries[from].path) then Some(from)
    else FindExport(entries, from + 1)
  }

  /** Lower-casing works character by character, so it distributes over concatenation. */
  lemma LowerConcat(a: string, b: string)
    ensures Lower(a + b) == Lower(a) + Lower(b)
  {
    assert forall i :: 0 <= i < |a + b| ==> Lower(a + b)[i] == (Lower(a) + Lower(b))[i];
  }

  /** An export document inside a folder of the archive still qualifies. */
  lemma NestedExportPath(folder: string, path: string)
    requires IsExportPath(path)
    ensures IsExportPath(folder + path)
  {
    LowerConcat(folder, path);
    var l := Lower(folder + path);
    assert l[|l| - |ExportSuffix|..] == Lower(path)[|Lower(path)| - |ExportSuffix|..];
  }

  /** Apple's own layout: the document sits in the apple_health_export folder. */
  lemma AppleExportPath()
    ensures IsExportPath("apple_health_export/export.xml")
  {
    NestedExportPath("apple_health_export/", "export.xml");
  }

  /** The match ignores letter case. */
  lemma UpperCaseExportPath()
    ensures IsExportPath("Export.XML")
  {
    var upper := "Export.XML";
    assert Lower(upper) == "export.xml" by {
      assert Lower(upper)[0] == LowerChar('E') == 'e';
      assert Lower(upper)[7] == LowerChar('X') == 'x';
      assert Lower(upper)[8] == LowerChar('M') == 'm';
      assert Lower(upper)[9] == LowerChar('L') == 'l';
    }
  }

  /** Only a suffix match counts: a backup copy or the clinical-document file does not qualify. */
  lemma NonExportPaths()
    ensures !IsExportPath("export.xml.bak")
    ensures !IsExportPath("export_cda.xml")
  {
    var bak := "export.xml.bak";
    assert Lower(bak)[|bak| - 1] == 'k';
    var cda := "export_cda.xml";
    assert Lower(cda)[|cda| - |ExportSuffix|] == 'r';
  }

  // ---------------------------------------------------------------------------
  // Filtering by record type

  /** A parsed <Record> element: attribute name (with the "@_" prefix) to raw string value. */
  type RawRecord = map<string, string>

  function Attr(r: RawRecord, name: string): Option<string> {
    if name in r then Some(r[name]) else None
  }

  /** The record has a type attribute and the type is one of AllowedTypes. */
  predicate IsAllowed(r: RawRecord) {
    "@_type" in r && r["@_type"] in AllowedTypes
  }

  /** The records whose type is allowed, in their original order. */
  function Filter(records: seq<RawRecord>): (kept: seq<RawRecord>)
    ensures |kept| <= |records|
    ensures forall r :: r in kept ==> r in records && IsAllowed(r)
    ensures forall r :: r in records && IsAllowed(r) ==> r in kept
    decreases |records|
  {
    if records == [] then []
    else
      var rest := Filter(records[1..]);
      if IsAllowed(records[0]) then [records[0]] + rest else rest
  }

  /** Filtering a concatenation filters each part: the relative order of kept records never changes. */
  lemma {:induction false} FilterConcat(a: seq<RawRecord>, b: seq<RawRecord>)
    ensures Filter(a + b) == Filter(a) + Filter(b)
    decreases |a|
  {
    if a == [] {
      assert a + b == b;
    } else {
      assert (a + b)[1..] == a[1..] + b;
      FilterConcat(a[1..], b);
    }
  }

  /** `sub` is obtained from `s` by deleting elements, without reordering. */
  predicate IsSubsequence<T(==)>(sub: seq<T>, s: seq<T>)
    decreases |s|
  {
    if sub == [] then true
    else if s == [] then false
    else if sub[0] == s[0] then IsSubsequence(sub[1..], s[1..])
    else IsSubsequence(sub, s[1..])
  }

  lemma {:induction false} FilterIsSubsequence(records: seq<RawRecord>)
    ensures IsSubsequence(Filter(records), records)
    decreases |records|
  {
    if records != [] {
      FilterIsSubsequence(records[1..]);
    }
  }

  /** Each allowed record is kept exactly as often as it occurs; every other record is dropped. */
  lemma {:induction false} FilterMultiplicity(records: seq<RawRecord>, r: RawRecord)
    ensures multiset(Filter(records))[r] == if IsAllowed(r) then multiset(records)[r] else 0
    decreases |records|
  {
    if records != [] {
      FilterMultiplicity(records[1..], r);
      assert records == [records[0]] + records[1..];
    }
  }

  // ---------------------------------------------------------------------------
  // The test limit

  /** The first `limit` records when the limit is non-zero; all of them otherwise. */
  function Truncate<T>(s: seq<T>, limit: nat): (t: seq<T>)
    ensures limit == 0 ==> t == s
    ensures limit > 0 ==> |t| == Min(limit, |s|)
    ensures t == s[..|t|]
  {
    if limit > 0 then s[..Min(limit, |s|)] else s
  }

  /** With the configured limit of 0, truncation changes nothing. */
  lemma ConfiguredLimitKeepsAll<T>(s: seq<T>)
    ensures Truncate(s, LimitForTest) == s
  {
  }

  /** Truncation leaves nothing exactly when there was nothing to truncate. */
  lemma TruncateEmpty<T>(s: seq<T>, limit: nat)
    ensures Truncate(s, limit) == [] <==> s == []
  {
    if s != [] {
      assert |Truncate(s, limit)| > 0;
    }
  }

  // ---------------------------------------------------------------------------
  // Mapping a record to a database row

  /** One row of the health_data table. */
  datatype Row = Row(
    userId: string,
    recordType: string,
    value: real,
    unit: string,
    startTime: Option<string>,
    endTime: Option<string>)

  /** parseFloat, abstracted: None stands for NaN. */
  type NumberParser = string -> Option<real>

  /**
   * `parseFloat(r['@_value']) || 0`: the parsed number, and 0 when the attribute
   * is missing or does not parse (category records carry no number).
   */
  function NumericValue(r: RawRecord, parseNumber: NumberParser): (v: real)
    ensures "@_value" !in r ==> v == 0.0
    ensures "@_value" in r && parseNumber(r["@_value"]).None? ==> v == 0.0
    ensures "@_value" in r && parseNumber(r["@_value"]).Some? ==> v == parseNumber(r["@_value"]).value
  {
    match Attr(r, "@_value")
    case None => 0.0
    case Some(text) => parseNumber(text).GetOr(0.0)
  }

  /**
   * The row for one kept record: the signed-in user's id, the record's type
   * (an allowed one), its value with the 0 fallback, its unit or "" and both
   * timestamps exactly as they appear in the export.
   */
  function ToRow(r: RawRecord, userId: string, parseNumber: NumberParser): (row: Row)
    requires IsAllowed(r)
    ensures row.userId == userId
    ensures Attr(r, "@_type") == Some(row.recordType) && row.recordType in AllowedTypes
    ensures row.value == NumericValue(r, parseNumber)
    ensures "@_unit" in r ==> row.unit == r["@_unit"]
    ensures "@_unit" !in r ==> row.unit == ""
    ensures row.startTime == Attr(r, "@_startDate") && row.endTime == Attr(r, "@_endDate")
  {
    Row(userId, r["@_type"], NumericValue(r, parseNumber), Attr(r, "@_unit").GetOr(""),
        Attr(r, "@_startDate"), Attr(r, "@_endDate"))
  }

  /** The rows for the kept records, one per record and in the same order. */
  function MapRows(kept: seq<RawRecord>, userId: string, parseNumber: NumberParser): (rows: seq<Row>)
    requires forall j :: 0 <= j < |kept| ==> IsAllowed(kept[j])
    ensures |rows| == |kept|
    ensures forall j :: 0 <= j < |rows| ==> rows[j] == ToRow(kept[j], userId, parseNumber)
    decreases |kept|
  {
    if kept == [] then []
    else [ToRow(kept[0], userId, parseNumber)] + MapRows(kept[1..], userId, parseNumber)
  }
}

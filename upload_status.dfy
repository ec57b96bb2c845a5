/**
 * The upload component's status line: the values it takes and the exact
 * strings the component displays for them.
 */
module UploadStatus {

  datatype Status =
    | Idle                                   // before any file is chosen
    | Processing                             // archive read, parse, filter
    | Uploading(inserted: nat, total: nat)   // after each stored batch
    | ExportNotFound                         // no entry ends in export.xml
    | NoMatchingRecords                      // nothing passed the type filter
    | BatchFailed(batch: nat, message: string) // 1-based batch number
    | Uploaded(count: nat)                   // every batch stored
    | ProcessingError                        // any exception caught by the pipeline

  /** A status after which the pipeline makes no further change. */
  predicate IsTerminal(s: Status) {
    s.ExportNotFound? || s.NoMatchingRecords? || s.BatchFailed? || s.Uploaded? || s.ProcessingError?
  }

  predicate IsFailure(s: Status) {
    s.ExportNotFound? || s.NoMatchingRecords? || s.BatchFailed? || s.ProcessingError?
  }

  const FailureMark: string := "\U{274C} "
  const SuccessMark: string := "\U{2705} "

  function DigitChar(d: nat): (c: char)
    requires d < 10
    ensures '0' <= c <= '9'
  {
    "0123456789"[d]
  }

  function DigitValue(c: char): nat
    requires '0' <= c <= '9'
  {
    (c as int - '0' as int) as nat
  }

  predicate AllDigits(s: string) {
    forall i :: 0 <= i < |s| ==> '0' <= s[i] <= '9'
  }

  /** The number a string of decimal digits denotes. */
  function DecimalValue(s: string): nat
    requires AllDigits(s)
  {
    if s == [] then 0 else DecimalValue(s[..|s| - 1]) * 10 + DigitValue(s[|s| - 1])
  }

  /** How a template literal renders a non-negative integer: decimal digits, no leading zero. */
  function NatToString(n: nat): (s: string)
    ensures s != [] && AllDigits(s)
    ensures |s| > 1 ==> s[0] != '0'
    ensures DecimalValue(s) == n
    decreases n
  {
    if n < 10 then [DigitChar(n)]
    else
      var prefix := NatToString(n / 10);
      var s := prefix + [DigitChar(n % 10)];
      assert s[..|s| - 1] == prefix;
      s
  }

  /** The text the component displays for each status. */
  function Message(s: Status): (m: string)
    ensures |m| >= 2
    ensures IsFailure(s) <==> m[0] == '\U{274C}'
    ensures s.Uploaded? <==> m[0] == '\U{2705}'
    ensures IsTerminal(s) ==> m[1] == ' '

  {
    match s
    case Idle =>
      var m := "No file uploaded yet";
      assert m[0] == 'N';
      m
    case Processing =>
      var m := "Processing file\U{2026}";
      assert m[0] == 'P';
      m
    case Uploading(inserted, total) =>
      var m := "Uploading\U{2026} " + NatToString(inserted) + " / " + NatToString(total);
      assert m[0] == 'U';
      m
    case ExportNotFound => Marked(FailureMark, "export.xml not found in ZIP file.")
    case NoMatchingRecords =>
      Marked(FailureMark, "No matching health records found for the selected types.")
    case BatchFailed(batch, message) =>
      Marked(FailureMark, "Upload failed on batch " + NatToString(batch) + ": " + message)
    case Uploaded(count) => Marked(SuccessMark, "Uploaded " + NatToString(count) + " health records")
    case ProcessingError => Marked(FailureMark, "Error processing file")
  }

  function Marked(mark: string, text: string): (m: string)
    requires |mark| == 2
    ensures |m| == |mark| + |text| && m[0] == mark[0] && m[1] == mark[1]
  {
    mark + text
  }

  /** The count in "Uploaded 12000 health records". */
  lemma {:induction false} NatToStringExample()
    ensures NatToString(12000) == "12000"
  {
    assert DigitChar(0) == '0' && DigitChar(1) == '1' && DigitChar(2) == '2';
    assert NatToString(12) == "12" by {
      assert 12 / 10 == 1 && 12 % 10 == 2;
    }
    assert NatToString(120) == "120" by {
      assert 120 / 10 == 12 && 120 % 10 == 0;
    }
    assert NatToString(1200) == "1200" by {
      assert 1200 / 10 == 120 && 1200 % 10 == 0;
    }
    assert 12000 / 10 == 1200 && 12000 % 10 == 0;
  }
}

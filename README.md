# Health export upload, modelled in Dafny

This project models the upload pipeline of the Apple Health import component. The user picks
an exported archive. The pipeline then:

- finds the entry whose path, lower-cased, ends in `export.xml`;
- parses the document and takes its `<Record>` elements;
- keeps the records whose type is one of nine HealthKit identifiers (`AllowedTypes`);
- cuts the selection to a test limit, when that limit is non-zero;
- maps each kept record to a row of the `health_data` table;
- inserts the rows in batches of 5000, in order, one call at a time, stopping at the first
  call the database refuses.

At every step the pipeline sets a status line. There are five modules:

- `Wrappers` holds `Option`.
- `UploadStatus` holds the status values and the exact text displayed for each one.
- `HealthRecords` holds the constants and the pure steps: the export lookup, the type
  filter, the truncation and the row mapping.
- `BatchLoader` specifies the batched inserts with functions (`Chunks`, `FirstFailure`,
  `ExpectedCalls`, `ExpectedTrace`). The loop itself is the method `UploadRows`, proved
  against those functions through the loop invariant `Sent`.
- `HealthUpload` specifies everything before the first insert with the function `Prepare`.
  The handler `HandleUpload` follows the source step by step and is proved to produce
  exactly the statuses and insert calls that the specification functions name.

The component's environment is passed in as parameters:

- the archive reader's result (`Archive`), with its entries in key order;
- the XML parser (`XmlParser`);
- `parseFloat` (`NumberParser`, where `None` stands for NaN);
- the database (`Inserter`). It maps the call index and the chunk to `Inserted` or to
  `InsertError(message)`.

The status line is React state that each step overwrites. The model returns the sequence
of values written to it, in order, as `trace`. Its last element is what the user finally
sees.

## Model

| member | source | states |
|---|---|---|
| HealthRecords.FindExport | src/components/upload/HealthUpload.js:37-39 | The result is the first entry whose lower-cased path ends in "export.xml". None means no entry matches, in both directions. |
| HealthRecords.NestedExportPath | src/components/upload/HealthUpload.js:37-39 | Any folder prefix in front of a matching path still matches, since only the suffix is tested. |
| HealthRecords.AppleExportPath | src/components/upload/HealthUpload.js:36-39 | "apple_health_export/export.xml", the path Apple's own export uses, is found. |
| HealthRecords.UpperCaseExportPath | src/components/upload/HealthUpload.js:38 | The match ignores letter case: "Export.XML" qualifies. |
| HealthRecords.NonExportPaths | src/components/upload/HealthUpload.js:38 | Only a suffix counts: "export.xml.bak" and "export_cda.xml" do not qualify. |
| HealthRecords.Filter | src/components/upload/HealthUpload.js:52 | A record is kept if and only if it is in the input and its "@_type" is one of the allowed types. The result is never longer than the input. |
| HealthRecords.FilterConcat | src/components/upload/HealthUpload.js:52 | Filtering distributes over concatenation, so the relative order of kept records is unchanged. |
| HealthRecords.FilterIsSubsequence | src/components/upload/HealthUpload.js:52 | The kept records are a subsequence of the parsed records: nothing is reordered or invented. |
| HealthRecords.FilterMultiplicity | src/components/upload/HealthUpload.js:52 | An allowed record is kept exactly as many times as it occurs. Any other record is kept zero times. |
| HealthRecords.Truncate | src/components/upload/HealthUpload.js:55 | A limit of 0 keeps everything. A positive limit keeps the first min(limit, n) records. The result is always a prefix. |
| HealthRecords.ConfiguredLimitKeepsAll | src/components/upload/HealthUpload.js:12 | With the configured LIMIT_FOR_TEST = 0, nothing is cut. |
| HealthRecords.TruncateEmpty | src/components/upload/HealthUpload.js:55-57 | Truncation leaves nothing exactly when there was nothing, so the empty check depends on the filter alone. |
| HealthRecords.NumericValue | src/components/upload/HealthUpload.js:66 | The value is the parsed number. It is 0 when "@_value" is missing or is not a number. |
| HealthRecords.ToRow | src/components/upload/HealthUpload.js:63-70 | The row carries the user's id, the record's allowed type, the value with its 0 fallback, the unit or "", and both timestamps copied unchanged. |
| HealthRecords.MapRows | src/components/upload/HealthUpload.js:63-70 | There is one row per kept record, in the same order, and row j is the mapping of record j. |
| BatchLoader.FlattenChunks | src/components/upload/HealthUpload.js:74-75 | The chunks, put back together, give the rows exactly: nothing is lost, duplicated or reordered. |
| BatchLoader.ChunkAt | src/components/upload/HealthUpload.js:75 | Chunk k is rows[k*5000 .. min(k*5000 + 5000, n)], and it starts inside the rows. |
| BatchLoader.ChunkCount | src/components/upload/HealthUpload.js:74 | The loop makes ceil(n / size) iterations. |
| BatchLoader.ChunkSizes | src/components/upload/HealthUpload.js:75 | Every chunk but the last holds exactly `size` rows. The last holds the remainder. |
| BatchLoader.FlattenChunksPrefix | src/components/upload/HealthUpload.js:74-75 | The first k chunks together are the first min(k*size, n) rows. |
| BatchLoader.TwelveThousandRows | src/components/upload/HealthUpload.js:11 | 12000 rows go out in three calls: rows 0-4999, 5000-9999 and 10000-11999. |
| BatchLoader.FirstFailure | src/components/upload/HealthUpload.js:77-78 | The result is the first call the database refuses. None means every call succeeds, in both directions. |
| BatchLoader.FirstFailureAt | src/components/upload/HealthUpload.js:77-80 | A refused call that comes after only accepted calls is the first failure. |
| BatchLoader.RefusedAt | src/components/upload/HealthUpload.js:77-81 | If call k is the first refused one, the calls made are chunks 0..k. The statuses are k progress lines, then "Upload failed on batch k+1" with the database's message. |
| BatchLoader.Progress | src/components/upload/HealthUpload.js:83-84 | One progress status is shown per stored chunk. |
| BatchLoader.ProgressAt | src/components/upload/HealthUpload.js:83-84 | The j-th progress status reports min((j+1)*size, n) rows of n. |
| BatchLoader.CallContents | src/components/upload/HealthUpload.js:75-77 | Call k carries rows[k*size .. min(k*size + size, n)], whatever the database answers. |
| BatchLoader.AllInserted | src/components/upload/HealthUpload.js:74-89 | When no call fails, ceil(n/size) calls are made, together they are exactly the rows, and the last status reports all n rows. |
| BatchLoader.FailFast | src/components/upload/HealthUpload.js:77-81 | After a failure at call k no further call is made. The k earlier calls were stored and hold the first k*size rows. The last status names batch k+1 and the error message. |
| BatchLoader.NextChunk | src/components/upload/HealthUpload.js:74-75 | Offset i = k*size is chunk k. It is the slice the loop cuts, i / size == k, and a further chunk exists exactly when i + size < n. |
| BatchLoader.SentStep | src/components/upload/HealthUpload.js:83-86 | An accepted chunk moves the loop invariant on by one chunk. The count grows by the chunk's length and one progress status is added. |
| BatchLoader.SentAll | src/components/upload/HealthUpload.js:74-89 | When the loop ends with no failure, every chunk was sent and the running count equals n. |
| BatchLoader.SentThenRefused | src/components/upload/HealthUpload.js:77-81 | A refused chunk ends the loop with the specified calls and statuses. The count is the number of rows in the stored chunks. |
| BatchLoader.UploadRows | src/components/upload/HealthUpload.js:73-89 | The loop's calls and statuses are exactly the specified ones. The final count is n when nothing fails, and the rows of the stored chunks when something does. |
| UploadStatus.NatToString | src/components/upload/HealthUpload.js:84 | A count is rendered as decimal digits with no leading zero, and those digits denote the count. |
| UploadStatus.NatToStringExample | src/components/upload/HealthUpload.js:89 | 12000 is rendered as "12000". |
| UploadStatus.Message | src/components/upload/HealthUpload.js:8-92 | A displayed text starts with the cross mark exactly for the failure statuses, and with the check mark exactly for success. A terminal text has a space after its mark. |
| HealthUpload.Selected | src/components/upload/HealthUpload.js:52-55 | The selection is a prefix of the filtered records. Each selected record is allowed and comes from the document. |
| HealthUpload.Prepare | src/components/upload/HealthUpload.js:34-70 | The steps before the first insert end in "not found", "no matching records" or the processing error. Otherwise they give a non-empty list of rows, each with the user's id and an allowed type. |
| HealthUpload.NotFoundIff | src/components/upload/HealthUpload.js:37-43 | "export.xml not found" is the outcome if and only if no entry path matches. |
| HealthUpload.NoMatchesIff | src/components/upload/HealthUpload.js:52-60 | Once the records are parsed, "no matching health records" is the outcome if and only if none of them has an allowed type. |
| HealthUpload.ReadyRows | src/components/upload/HealthUpload.js:50-70 | The rows are the mapping of the leading filtered records, in order: all of them when the limit is 0, at most `limit` otherwise. |
| HealthUpload.TestLimitExample | src/components/upload/HealthUpload.js:12 | A limit of 2000 over 12000 qualifying records gives 2000 rows, sent in one call. |
| HealthUpload.TraceShape | src/components/upload/HealthUpload.js:73-89 | The status sequence of an upload ends in a terminal status. Every earlier status is a progress line whose count never decreases and never exceeds the total. |
| HealthUpload.HandleUpload | src/components/upload/HealthUpload.js:29-94 | Without a file nothing happens. Otherwise the status is "Processing file…", then either one terminal status with no insert call, or exactly the loop's specified statuses and calls over the mapped rows. |

## Left out

- Decompressing the archive (JSZip) is not modelled. Its result is the `Archive` value: the entries in key order, each with its text or `None` when it cannot be decoded. The component throws on an unreadable archive, and the model reports that as the processing error.
- XML parsing (fast-xml-parser) is not modelled. It is the `XmlParser` parameter, and a malformed document is reported as the processing error.
- A document with exactly one `<Record>` makes the parser return an object, not an array. `.filter` then throws and the catch block shows "Error processing file". The model follows that code (`SingleRecord` gives `ProcessingError`). It does not follow the behaviour of a parser that always yields a sequence of repeated children.
- A `Record` field that is a string or a number, rather than an element, is not modelled separately. It too would throw at `.filter`.
- `parseFloat` and IEEE floating point (NaN, -0, Infinity, rounding) are not modelled. Values are `real`, the parser is a parameter, and `|| 0` maps a missing or unparsable value to 0. A value that parses to -0 would also become 0 in the source; the model does not capture this.
- HealthRecords.LowerChar: only ASCII letters are lower-cased. `toLowerCase` also folds other letters, but none of them folds to a letter of "export.xml", so the match decision is the same.
- `Object.keys` puts integer-like keys first. The model takes the entries in the archive's key order as given.
- The Supabase client and the network are not modelled. Each insert call is the `Inserter` parameter. A thrown exception from the client (rather than a returned error) is not modelled.
- The zero-delay `setTimeout` yield between batches is a no-op: it changes no state the pipeline observes.
- `console.error` in the catch block is not modelled.
- React rendering, the file input and the `useState` hook are not modelled. The status line is the returned `trace` of written values, and the initial "No file uploaded yet" is `Status.Idle`.
- Concurrent invocations, such as a second file chosen before the first finishes, are not modelled. Each call of `HandleUpload` is one invocation on its own.
- The signed-in user is a plain `userId` string. The component's parent renders it only when a user is signed in; `AuthForm.js` and `App.js` are not part of this model.
- UploadStatus.Message: its contract states the status marks and not each full text. The exact texts are its definition.

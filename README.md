# CSV prospect import, modelled in Dafny

This project models the CSV import of an outreach CRM web client
(`src/components/upload/CsvMapper.tsx`). A user loads a CSV file and maps
the fixed prospect fields (`email`, `company`, `contact_name`, `phone`,
`city`, `state`, `website`, `tags`) to the file's columns. The import then
turns each parsed row into a prospect record and drops records without an
email. It sends the records to the backend's `prospects` upsert in slices of
at most 500 and counts the imported rows.

Modules, one per concern of the component:

- `Wrappers` (`wrappers.dfy`): `Option`, standing for `undefined`/`null`.
- `Selection` (`selection.dfy`): what an order-preserving `filter` is. `Selects`
  says that a list is the selection a keep-test makes from another: the kept
  positions are listed in increasing order, each kept element appears once,
  and a position is kept exactly when the test keeps it. The three filters of
  the import (empty tags, missing rows, records without email) are each
  proved to be such a selection.
- `JsString` (`js_string.dfy`): the JavaScript built-ins `trim` and
  `split(',')` that the tag handling uses, with `Join` as the inverse of `Split`.
- `FieldMapping` (`field_mapping.dfy`): the destination fields and the
  mapping object. The mapping is a list of entries with distinct fields, in
  key insertion order. A cleared field keeps its key and holds `undefined`,
  as `{ ...m, [f]: v || undefined }` does.
- `ProspectRecord` (`prospect_record.dfy`): rows, records, the in-place loop
  that fills one record, the tag list and the email filter.
- `Batching` (`batching.dfy`): the 500-record slicing and the sending loop.
  The upsert is a parameter, `Backend<T>`. It answers each slice, given the
  slices sent before it, with an error or an optional count.
- `CsvImport` (`csv_import.dfy`): `canUpload`, the guards of `upload`, and
  `upload` itself.

The success message (`CsvMapper.tsx:98`) says duplicates were deduped by
`(org_id, email)`. The client does not deduplicate: it upserts with
`onConflict: 'org_id,email'` (line 94), so deduplication happens on the
backend, outside this model.

## Model

| member | source | states |
|---|---|---|
| `JsString.TrimStart` | src/components/upload/CsvMapper.tsx:80 | the result is a suffix of the input that is empty or starts with a non-space character |
| `JsString.TrimStartStrips` | src/components/upload/CsvMapper.tsx:80 | everything `TrimStart` drops is white space |
| `JsString.TrimEnd` | src/components/upload/CsvMapper.tsx:80 | the result is a prefix of the input that is empty or ends with a non-space character |
| `JsString.TrimEndStrips` | src/components/upload/CsvMapper.tsx:80 | everything `TrimEnd` drops is white space |
| `JsString.Trim` | src/components/upload/CsvMapper.tsx:80 | a trimmed piece is empty or starts and ends with a non-space character |
| `JsString.TrimInfix` | src/components/upload/CsvMapper.tsx:80 | `trim` returns the infix of its input that starts where the leading white space ends |
| `JsString.TrimSurround` | src/components/upload/CsvMapper.tsx:80 | everything `trim` removes, before and after the result, is white space |
| `JsString.TrimEmptyIff` | src/components/upload/CsvMapper.tsx:80 | `trim` gives the empty string exactly when its input is all white space |
| `JsString.TrimIdempotent` | src/components/upload/CsvMapper.tsx:80 | trimming twice is trimming once |
| `JsString.TrimChars` | src/components/upload/CsvMapper.tsx:80 | every character of a trimmed piece occurs in the piece |
| `JsString.Split` | src/components/upload/CsvMapper.tsx:80 | `split(',')` yields at least one piece, even for the empty string |
| `JsString.SplitCommaFree` | src/components/upload/CsvMapper.tsx:80 | no piece of `split(',')` contains a comma |
| `JsString.JoinSplit` | src/components/upload/CsvMapper.tsx:80 | joining the pieces with commas gives back the input (round trip) |
| `JsString.SplitJoin` | src/components/upload/CsvMapper.tsx:80 | splitting a comma-join of comma-free pieces gives back the pieces (round trip) |
| `JsString.SplitNoComma` | src/components/upload/CsvMapper.tsx:80 | a comma-free string is one piece |
| `JsString.SplitAtComma` | src/components/upload/CsvMapper.tsx:80 | splitting `a + "," + b` gives the pieces of `a` followed by those of `b` |
| `FieldMapping.Selected` | src/components/upload/CsvMapper.tsx:77 | a stored column counts only when it is a non-empty string; `undefined` and `""` are skipped |
| `FieldMapping.Find` | src/components/upload/CsvMapper.tsx:77 | `mapping[f]` read as truthy (also `mapping.email` at lines 38 and 67): a field's mapped column is never `""`, and a field with no entry has none |
| `FieldMapping.FindAt` | src/components/upload/CsvMapper.tsx:7-16 | in a mapping with distinct keys, a lookup reads the one entry holding the field |
| `FieldMapping.UpdateMapping` | src/components/upload/CsvMapper.tsx:58-60 | after `updateMapping(f, v)`, `f` maps to `v` when `v` is non-empty and to nothing when `v` is `""`; every other field is unchanged; existing keys keep their order and a new key is appended |
| `FieldMapping.FindAfterUpdate` | src/components/upload/CsvMapper.tsx:59 | the spread-and-overwrite entry list reads as the new selection for `f` and as before for every other field |
| `ProspectRecord.Cell` | src/components/upload/CsvMapper.tsx:78 | reading a row at a column whose name is not an `Object.prototype` member gives its cell when the row has it and `undefined` otherwise |
| `ProspectRecord.NonEmpty` | src/components/upload/CsvMapper.tsx:80 | `filter(Boolean)` keeps exactly the non-empty pieces |
| `ProspectRecord.KeepNonEmpty` | src/components/upload/CsvMapper.tsx:80 | the keep-test of `filter(Boolean)` on strings keeps a piece, unchanged, exactly when it is non-empty |
| `ProspectRecord.NonEmptySelects` | src/components/upload/CsvMapper.tsx:80 | `filter(Boolean)` is an order-preserving selection: the non-empty pieces, in their order, each once |
| `ProspectRecord.TrimAll` | src/components/upload/CsvMapper.tsx:80 | `map(t => t.trim())` gives one piece per piece; `TrimAllAppend` and `TrimAllSingle` fix its value |
| `ProspectRecord.TrimAllSingle` | src/components/upload/CsvMapper.tsx:80 | mapping `trim` over one piece gives its trimmed text |
| `ProspectRecord.NonEmptySingle` | src/components/upload/CsvMapper.tsx:80 | `filter(Boolean)` on one piece keeps it exactly when it is non-empty |
| `ProspectRecord.TrimmedPieces` | src/components/upload/CsvMapper.tsx:80 | trimmed comma-free pieces stay comma-free and are fixed points of `trim` |
| `ProspectRecord.TagList` | src/components/upload/CsvMapper.tsx:79-81 | every tag is non-empty, comma-free and trimmed; an empty `tags` cell gives the empty list, not `null` |
| `ProspectRecord.TagListAtComma` | src/components/upload/CsvMapper.tsx:80 | the tags of `a + "," + b` are the tags of `a` then the tags of `b` |
| `ProspectRecord.NonEmptyAppend` | src/components/upload/CsvMapper.tsx:80 | `filter(Boolean)` of two lists joined is the filter of each, joined |
| `ProspectRecord.TrimAllAppend` | src/components/upload/CsvMapper.tsx:80 | `map(t => t.trim())` of two lists joined is the map of each, joined |
| `ProspectRecord.TagListSingle` | src/components/upload/CsvMapper.tsx:80 | a comma-free cell gives its trimmed text as the one tag, or no tag when that is empty |
| `ProspectRecord.FieldValue` | src/components/upload/CsvMapper.tsx:78-82 | `value ?? null`: a missing cell gives `null`; a present cell gives a tag array exactly for `tags`, and otherwise its own text |
| `ProspectRecord.RecordOf` | src/components/upload/CsvMapper.tsx:75-83 | the entry loop as a fold over the entries in key order; the record always holds `org_id` with the organisation id, and `RecordOfKeys` fixes the rest |
| `ProspectRecord.FindSnoc` | src/components/upload/CsvMapper.tsx:76-77 | in key order, the entries before `i` give its field no column, entry `i` decides that column, and every other field keeps the column the earlier entries gave it |
| `ProspectRecord.RecordOfKeys` | src/components/upload/CsvMapper.tsx:75-83 | the record built by the entry loop has exactly `org_id` and the fields with a truthy column as keys, `org_id` holds the organisation id, and each field holds the value of its mapped cell |
| `ProspectRecord.BuildRecord` | src/components/upload/CsvMapper.tsx:75-84 | the loop's record has `org_id` set to the organisation id; its other keys are exactly the fields with a non-empty mapped column; a missing cell gives `null`, a `tags` cell its tag list, any other cell its text |
| `ProspectRecord.HasEmail` | src/components/upload/CsvMapper.tsx:85 | `!!r.email` holds exactly when the record has an email that is neither `null` nor the empty string |
| `ProspectRecord.HasEmailIff` | src/components/upload/CsvMapper.tsx:85 | a row's record survives the filter exactly when the email field is mapped and the row's cell there is a non-empty string |
| `ProspectRecord.WithEmail` | src/components/upload/CsvMapper.tsx:85 | the filter never grows the list and every record it keeps has a truthy email |
| `ProspectRecord.KeepWithEmail` | src/components/upload/CsvMapper.tsx:85 | the keep-test of the email filter keeps a record, unchanged, exactly when its email is truthy |
| `ProspectRecord.WithEmailMembers` | src/components/upload/CsvMapper.tsx:85 | a record is kept exactly when it is one of the input records and has a truthy email |
| `ProspectRecord.BuiltRecords` | src/components/upload/CsvMapper.tsx:74 | `rows.map(...)` gives one record per row, in row order |
| `ProspectRecord.WithEmailSelects` | src/components/upload/CsvMapper.tsx:74-85 | the payload is an order-preserving selection of the built records: increasing row indices, each record once, and a row is selected exactly when its record has an email |
| `ProspectRecord.Payload` | src/components/upload/CsvMapper.tsx:74-85 | the payload has at most one record per row and every record in it has a truthy email |
| `ProspectRecord.PayloadFacts` | src/components/upload/CsvMapper.tsx:74-85 | the payload has at most as many records as rows, and each one carries the organisation id, a non-empty email and exactly the mapped keys |
| `ProspectRecord.BuiltRecordsSnoc` | src/components/upload/CsvMapper.tsx:74 | mapping one more row appends that row's record |
| `ProspectRecord.BuildPayload` | src/components/upload/CsvMapper.tsx:74-85 | mapping the rows through the record loop and filtering by email yields the payload |
| `ProspectRecord.ParsedRows` | src/components/upload/CsvMapper.tsx:49-50 | `filter(Boolean)` on the parser's output keeps exactly the present rows and never adds any |
| `ProspectRecord.ParsedRowsSelects` | src/components/upload/CsvMapper.tsx:49 | `filter(Boolean)` on the parser's output is an order-preserving selection: the present rows, in the parser's order, each once |
| `Batching.Batches` | src/components/upload/CsvMapper.tsx:88-91 | there are ceil(n/500) slices, each holding 1 to 500 records |
| `Batching.BatchAt` | src/components/upload/CsvMapper.tsx:90-91 | slice `k` is `payload[500k .. min(500k + 500, n)]`, so slices are contiguous and do not overlap |
| `Batching.BatchesCover` | src/components/upload/CsvMapper.tsx:90-91 | the slices, concatenated, are the payload |
| `Batching.SliceExists` | src/components/upload/CsvMapper.tsx:90 | the loop condition `i < payload.length` with `i = 500k` holds exactly while slice `k` exists |
| `Batching.ProgressStep` | src/components/upload/CsvMapper.tsx:90-96 | an accepted slice moves `i` on by 500, extends the accepted prefix of slices and adds `count ?? slice.length` to `inserted` |
| `Batching.ProgressAbort` | src/components/upload/CsvMapper.tsx:95 | an error on a slice ends the loop in a run that stops at that error with that slice as the last request |
| `Batching.ProgressDone` | src/components/upload/CsvMapper.tsx:90 | leaving the loop at the payload's end means every slice was sent and accepted, with `inserted` their credited sum |
| `Batching.SendBatches` | src/components/upload/CsvMapper.tsx:88-97 | the requests sent are the first slices in order; every request before the last was accepted; either all slices were accepted and `inserted` is the sum of `count ?? slice.length`, or the run stopped at the first error and sent nothing after it |
| `Batching.Credit` | src/components/upload/CsvMapper.tsx:96 | an accepted slice adds `count` when the backend returns one and `slice.length` otherwise |
| `Batching.CreditedUncounted` | src/components/upload/CsvMapper.tsx:96 | when no count is returned, the running `inserted` equals the number of records sent |
| `Batching.UncountedImportsAll` | src/components/upload/CsvMapper.tsx:88-97 | a run against a backend that never returns a count imports exactly the payload's length |
| `Batching.RunIsUnique` | src/components/upload/CsvMapper.tsx:88-97 | the sending loop has exactly one possible outcome and list of requests for a given payload and backend |
| `CsvImport.OrgPresent` | src/components/upload/CsvMapper.tsx:63 | `!!orgId` (also at line 38): the organisation id is present exactly when it is neither `null` nor `""` |
| `CsvImport.GuardMessage` | src/components/upload/CsvMapper.tsx:63-70 | an upload passes the guards exactly when the organisation id is present and the email field is mapped; a missing organisation is reported first, as "Missing org context", then "Map the Email field" |
| `CsvImport.CanUpload` | src/components/upload/CsvMapper.tsx:38 | `canUpload` holds exactly when there is at least one row and neither guard of the upload would stop it (the button is also disabled while `uploading`, which is not modelled) |
| `CsvImport.FailureText` | src/components/upload/CsvMapper.tsx:101 | a failed import always shows a non-empty message: the error's own message, or exactly "Import failed" when that is empty |
| `CsvImport.Report` | src/components/upload/CsvMapper.tsx:98-101 | a completed loop is reported as `Imported` with its count; an error as `ImportFailed` with the error's message, or "Import failed" when that is empty; never as a guard rejection |
| `CsvImport.Upload` | src/components/upload/CsvMapper.tsx:62-104 | a guard failure sends nothing and reports its message; otherwise the requests and the result are those of a run of the sending loop over the built payload; with rows present, the upload is rejected exactly when `canUpload` is false; with no rows, it imports 0 and sends nothing |
| `CsvImport.SentRecordsAreClean` | src/components/upload/CsvMapper.tsx:74-97 | every request holds 1 to 500 records, each stamped with the user's organisation id and carrying a non-empty email |

## Left out

- CSV parsing (`Papa.parse`, lines 45-55) is a third-party library. The model takes its output as input: rows that may be missing (`ParsedRows`), each a map from header to cell text.
- `Row`: a present cell that is not a string is not modelled, since a row is a map from header to string: with `header: true`, PapaParse puts the extra cells of a row longer than the header into an array under `__parsed_extra`. That key could be offered as a column (line 51) and, once mapped, its array would be stored unchanged, not split even for `tags` (the `typeof value === 'string'` test at line 79), and it would pass the email filter.
- `ProspectRecord.Cell`: a header named after an `Object.prototype` member (`constructor`, `toString`, `valueOf`, ...) on a row that has no cell for it is not modelled. There `r[csvKey]` (line 78) yields the inherited function, which line 82 stores as is, unsplit even for `tags`, and which `!!r.email` (line 85) counts as an email. The model reads such a cell as `undefined`, stores `null` and drops the record, because a row is a map from header to string and JavaScript prototype lookup is outside it.
- The column list offered in the drop-downs (`Object.keys(data[0] ?? {})`, line 51) is left out. It only feeds the form's options.
- The upsert request (lines 92-94) is a network call. It is the `Backend` parameter. The deduplication by `(org_id, email)` that it performs is not part of this model.
- React state and rendering are left out: `file`, `uploading`, the message display, the 5-row preview and the field labels. `Upload` returns its outcome instead of calling `setMessage`. The success text "Imported N prospect(s)…" is represented by `Imported(N)`, without formatting the number into the string.
- The `await` between requests is not modelled. The loop is sequential, so each request is sent after the previous answer.
- The other files of the repository are not part of this model: authentication and the auth provider, routing, the task, campaign, dashboard and conversion pages, the client configuration, and type declarations. They are remote queries, UI, or configuration.

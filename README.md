# BIO capture workflow in Dafny

BIO is a browser application that records biometric samples for one subject.
Each subject gets four samples: an index-finger photo and a thumb photo from
the phone camera, then an index-finger scan and a thumb scan from the
fingerprint scanner. Every sample that is not a binary file is sent to the
quality-feedback provider for its device: camera photos to the image-quality
provider, scans to the NFIQ provider. The samples are reviewed, then saved as a record into a named database that is
kept in the browser's local storage. Records can be exported as CSV.

This project models the core of that application:

- `Types` and `Constants` model the data types (`src/lib/types.ts`) and the
  fixed step table and initial device list (`src/lib/constants.ts`).
- `AppShell.Controller` is a class. Its fields are the React state of the
  workflow controller (`app-shell.tsx`), and each handler is a method on it.
  It comes with scenario methods that run handler sequences.
- `CaptureWorkflow` holds the value-level rules those handlers use:
  - the step cursor;
  - the artifact a store writes;
  - the provider routing and the completion spread;
  - the record upsert;
  - the database mirroring effect;
  - the CSV export rows.
- `Csv` is the `exportToCsv` serialiser (`src/lib/utils.ts:28-65`):
  - `FlattenRow` is a loop method, proved against the function `FlatRow`;
  - the header list is proved equal to a first-occurrence reference;
  - the document is a header line plus one line per row.
- `JsString` models the JavaScript built-ins the core relies on: `join`,
  `split`, `replace`, `trim` and `String(n)`.
- `CaptureView` and `ValidationView` hold the decision rules of the capture
  and review screens.
- `DatabaseDialog.Dialog` and `LoginPage.Page` are the two forms. Each is a
  class whose handlers update the form state.

Some inputs become parameters:

- the answer of a quality-feedback provider: a report, or `None` when the
  call throws;
- the outcome of a local-storage write: stored, quota exceeded, or another
  failure;
- the answer of the authentication service;
- the fresh record id and the clock reading.

## Model

| member | source | states |
|---|---|---|
| Types.Truthy | src/components/biometric/capture-view.tsx:37-39 | an optional flag tests true only when it is `true`; `undefined` and `false` are falsy |
| Constants.StepTableShape | src/lib/constants.ts:3-8 | there are four steps, ordered camera index, camera thumb, scanner index, scanner thumb; the first two use the camera and the last two the scanner |
| Constants.StepIdsDistinctAndComplete | src/lib/constants.ts:4-7 | the step ids are pairwise distinct, every step id has a step in the table, and there are exactly as many step ids as steps |
| Constants.IndexOfStep | src/lib/constants.ts:3-8 | every step id has a position in the table, and the step at that position carries that id |
| Constants.DeviceOf | src/lib/constants.ts:4-7 | a step id uses the camera exactly when it is one of the two camera steps |
| Constants.InitialDevicesChecking | src/lib/constants.ts:10-13 | both initial devices, phone camera then scanner, start in status `checking` |
| JsString.Join | src/lib/utils.ts:51 | joining no parts gives the empty string, and a single part is returned as it is |
| JsString.Split | src/components/biometric/database-dialog.tsx:26 | `split` gives at least one piece, no piece holds the separator, and joining the pieces on the separator gives back the input |
| JsString.SplitJoin | src/lib/utils.ts:63-65 | splitting a join on its separator gives back the parts, provided no part contains the separator |
| JsString.JoinAvoids | src/lib/utils.ts:63-65 | a character absent from every part and from the separator is absent from the joined text |
| JsString.UndoubleDoubleQuotes | src/lib/utils.ts:60 | undoing the quote doubling of `replace(/"/g, '""')` gives back the original text |
| JsString.DoubleQuotes | src/lib/utils.ts:60 | `replace(/"/g, '""')` never shortens the text and leaves text without a quote unchanged |
| JsString.DoubleQuotesKeeps | src/lib/utils.ts:59-60 | doubling quotes neither adds nor removes any other character, so a comma survives it |
| JsString.NatToString | src/lib/utils.ts:58 | `String(n)` of a natural number is a non-empty string of decimal digits without a leading zero, except `0` itself |
| JsString.NatToStringValue | src/lib/utils.ts:58 | the digits printed for `n` denote `n` |
| JsString.IntToString | src/lib/utils.ts:58 | `String(n)` of an integer is its magnitude's digits, preceded by `-` exactly when it is negative |
| JsString.IntToStringValue | src/lib/utils.ts:58 | the text of `String(n)` reads back as `n`: its digits denote `n`, or `-n` after the sign |
| JsString.TrimStart | src/components/biometric/database-dialog.tsx:30 | trimming the start drops a leading run of whitespace and leaves text that does not start with whitespace |
| JsString.TrimEnd | src/components/biometric/database-dialog.tsx:30 | trimming the end drops a trailing run of whitespace and leaves text that does not end with whitespace |
| JsString.Trim | src/components/biometric/database-dialog.tsx:30-31 | `trim()` returns the stretch of its input left between a leading and a trailing run of whitespace; that stretch neither starts nor ends with whitespace |
| JsString.TrimEmptyIff | src/components/biometric/database-dialog.tsx:30 | a string trims to empty exactly when all of it is whitespace |
| Csv.Keys | src/lib/utils.ts:48 | `Object.keys` gives one key per entry of the row |
| Csv.KeysAreFirsts | src/lib/utils.ts:48 | key `i` of a row is the name of its entry `i`, in insertion order |
| Csv.Lookup | src/lib/utils.ts:54 | reading a key the row lacks gives `undefined` |
| Csv.LookupFirst | src/lib/utils.ts:54 | reading a key gives the value of the first entry with that name |
| Csv.Put | src/lib/utils.ts:39-42 | assigning an existing key keeps the key order; a new key is appended; the key then holds the value and every other key is unchanged |
| Csv.Prefixed | src/lib/utils.ts:39 | nested field `k` of field `key` becomes column `key_k`, in nested order |
| Csv.PutNested | src/lib/utils.ts:38-40 | the nested loop keeps every existing column at its place; when every prefixed column already exists it adds none; the last nested value is what its column holds |
| Csv.FlattenEntry | src/lib/utils.ts:36-43 | one outer iteration keeps every existing column at its place; a non-object value is stored under its own key and every other key keeps its value |
| Csv.FlattenFrom | src/lib/utils.ts:35-44 | the outer loop keeps every column already present at its place |
| Csv.PutNestedAppends | src/lib/utils.ts:38-40 | when no column collides, copying a nested object appends its prefixed columns |
| Csv.FlattenFromIsExpansion | src/lib/utils.ts:35-44 | when no column collides, the outer loop appends each field's expansion in field order |
| Csv.FlatRowIsExpansion | src/lib/utils.ts:33-46 | without column collisions, the flat row is every field expanded one level deep, in order |
| Csv.FlatRowOfFlatRow | src/lib/utils.ts:41-43 | a row without object fields and without repeated keys is its own flattening |
| Csv.FlattenFromNoDup | src/lib/utils.ts:33-46 | a flat row never repeats a key, whatever the input |
| Csv.LaterFieldOverwrites | src/lib/utils.ts:36-40 | a later object field whose prefixed columns all exist already adds no column and leaves the key order as it was; the colliding column holds the last nested value |
| Csv.FirstOccurrences | src/lib/utils.ts:48 | reference for `[...new Set(...)]`: the same elements as the input, each exactly once |
| Csv.SetInsertAllIsFirstOccurrences | src/lib/utils.ts:48 | inserting into a `Set` that holds the first occurrences of a prefix yields the first occurrences of the whole sequence |
| Csv.SetInsertAll | src/lib/utils.ts:48 | inserting into a `Set` keeps what it held, in order; it then holds exactly the old and the inserted elements, and never one twice |
| Csv.Dedup | src/lib/utils.ts:48 | the `Set`-based de-duplication equals the first-occurrence reference |
| Csv.FirstOccurrencesOrdered | src/lib/utils.ts:48 | the de-duplicated elements keep the order of their first appearance |
| Csv.Headers | src/lib/utils.ts:48 | the header list holds every key of every flat row, and each exactly once |
| Csv.HeadersInFirstSeenOrder | src/lib/utils.ts:48 | headers appear in the order their keys are first seen across the rows |
| Csv.Stringify | src/lib/utils.ts:58 | `String(value)` of a string is the string itself; the text of a number, boolean, `undefined`, `null` or plain object holds no comma, quote or line break |
| Csv.Cell | src/lib/utils.ts:55-62 | `undefined` and `null` give the empty cell; text without a comma is verbatim; text with a comma is wrapped in quotes and undoing the doubling inside them gives the text back |
| Csv.CellDecodes | src/lib/utils.ts:55-62 | a cell reads back as the value's text under an RFC 4180 reader, except when the text starts with a quote and has no comma |
| Csv.UnquotedWithoutComma | src/lib/utils.ts:59-62 | text without a comma is emitted verbatim, even when it holds quotes or line breaks |
| Csv.QuotedTextMisread | src/lib/utils.ts:59-62 | any text `"s"` whose `s` holds no comma is emitted as is and reads back as `s` with its doubled quotes undone: its outer quotes are lost |
| Csv.ScalarsAreVerbatim | src/lib/utils.ts:55-62 | numbers and booleans are emitted as their text, never quoted; `undefined` and `null` give the empty cell |
| Csv.Cells | src/lib/utils.ts:53-63 | a data line has one cell per header |
| Csv.CsvLines | src/lib/utils.ts:50-65 | the document has one header line and then exactly one line per input row |
| Csv.CsvDocument | src/lib/utils.ts:29-31 | there is a document exactly when there is at least one row |
| Csv.DataLineCells | src/lib/utils.ts:52-63 | data line `i` joins, in header order, the cell of each header's value in flat row `i`; a header the row lacks gives the empty cell |
| Csv.LinesSeparate | src/lib/utils.ts:50-65 | when no header or cell holds a line break, splitting the document on `\n` gives back its lines: one more than there are rows |
| Csv.FlattenRow | src/lib/utils.ts:33-46 | the nested `for...in` loops build exactly the flat row |
| Csv.FlattenRows | src/lib/utils.ts:33-46 | `data.map` flattens every row, in order, one flat row per input row |
| Csv.ExportToCsv | src/lib/utils.ts:28-65 | the content built is the document: none for no rows, otherwise header plus data lines joined by `\n` |
| CaptureWorkflow.Accept | src/components/biometric/app-shell.tsx:222-228 | below the last step the index moves on by one; on the last step the status becomes VALIDATING and the index stays; the index stays in the table |
| CaptureWorkflow.Accepts | src/components/biometric/app-shell.tsx:222-228 | any number of accepts keeps the index in the table |
| CaptureWorkflow.ValidatingAbsorbs | src/components/biometric/app-shell.tsx:225-227 | further accepts on the last step while validating change nothing |
| CaptureWorkflow.AcceptsFrom | src/components/biometric/app-shell.tsx:222-228 | from step `i`, `k` accepts reach step `i+k` while it is in the table, and VALIDATING on the last step after that |
| CaptureWorkflow.AcceptsToValidation | src/components/biometric/app-shell.tsx:222-228 | from step 0, exactly four accepts reach VALIDATING; fewer leave the workflow capturing at step `k` |
| CaptureWorkflow.NewArtifact | src/components/biometric/app-shell.tsx:141-150 | the stored entry carries the step id, the data URI as URL and data, the device, the binary flag and the file name; loading is on and no feedback is present |
| CaptureWorkflow.RecaptureUndoesStore | src/components/biometric/app-shell.tsx:230-235 | removing the entry just stored under a step that was empty gives back the image map as it was |
| CaptureWorkflow.RouteFeedback | src/components/biometric/app-shell.tsx:153-169 | a non-binary camera artifact gets only the quality report and a non-binary scanner artifact only the NFIQ report; a binary artifact gets neither; a provider failure leaves both null and raises the failure notice |
| CaptureWorkflow.FeedbackIsExclusive | src/components/biometric/app-shell.tsx:156-161 | at most one of the two reports is written, and a binary artifact gets two nulls and no failure |
| CaptureWorkflow.Completed | src/components/biometric/app-shell.tsx:173-179 | the completion writes both reports and clears loading; it keeps every other field of an existing entry; spreading a missing entry leaves step id, URL, data, device, binary flag and file name absent; the result is well formed exactly when an entry existed and was well formed |
| CaptureWorkflow.CompletionKeepsArtifact | src/components/biometric/app-shell.tsx:171-181 | completing the feedback of the artifact just stored keeps that artifact and switches loading off |
| CaptureWorkflow.Upsert | src/components/biometric/app-shell.tsx:255-258 | an existing id is replaced in place, keeping length and order; a new id is appended at the end |
| CaptureWorkflow.UpsertContents | src/components/biometric/app-shell.tsx:255-258 | after the upsert the record is stored, every record with another id is kept, and nothing else appears |
| CaptureWorkflow.UpsertKeepsIdsDistinct | src/components/biometric/app-shell.tsx:255-258 | a list with distinct record ids keeps distinct ids after an upsert |
| CaptureWorkflow.UpsertIdempotent | src/components/biometric/app-shell.tsx:255-258 | saving the same record twice gives the same list as saving it once |
| CaptureWorkflow.Loaded | src/components/biometric/app-shell.tsx:99 | selecting a database loads its records, or the empty list for an unknown name |
| CaptureWorkflow.Synced | src/components/biometric/app-shell.tsx:84-91 | while a non-empty name is active, the mirroring effect files the active list under that name and leaves every other database unchanged; without a name it does nothing |
| CaptureWorkflow.SelectThenSync | src/components/biometric/app-shell.tsx:97-102 | selecting an existing database and mirroring what was loaded leaves the database map unchanged |
| CaptureWorkflow.FileNameBase | src/components/biometric/app-shell.tsx:296 | export files are named after a non-empty database name, and `biometric-data` otherwise |
| CaptureWorkflow.ExportRow | src/components/biometric/app-shell.tsx:303-316 | an export row has exactly the twelve columns in literal order, no nested object, and the record id under `record_id` |
| CaptureWorkflow.RowsFor | src/components/biometric/app-shell.tsx:303-316 | a record gives at most one row per listed step, each with exactly the twelve columns, no nested object and the record's id |
| CaptureWorkflow.RowsForCount | src/components/biometric/app-shell.tsx:303 | a record gives one row per listed step that holds an image |
| CaptureWorkflow.ExportLookup | src/components/biometric/app-shell.tsx:303-316 | in a row with the twelve distinct export columns, each column reads its own entry |
| CaptureWorkflow.ExportRowCaptureValues | src/components/biometric/app-shell.tsx:304-309 | an export row holds the record's timestamp and the image's step id, device, binary flag and file name, `undefined` where the image has none |
| CaptureWorkflow.ExportRowFeedbackValues | src/components/biometric/app-shell.tsx:310-315 | an export row holds the quality report's score, blur level, lighting and feedback and the NFIQ report's score and feedback, `undefined` through a missing or `null` report |
| CaptureWorkflow.RowsForMembers | src/components/biometric/app-shell.tsx:303-316 | the rows for a list of steps are exactly the rows of the listed steps that hold an image |
| CaptureWorkflow.RecordRows | src/components/biometric/app-shell.tsx:303-316 | a record gives exactly one export row per stored image |
| CaptureWorkflow.ExportRows | src/components/biometric/app-shell.tsx:302-317 | a CSV export has exactly one row per stored image across all records |
| CaptureWorkflow.RecordRowsMembers | src/components/biometric/app-shell.tsx:303-316 | every stored image of a record has its row among the record's rows, and every such row belongs to a stored image |
| CaptureWorkflow.ExportRowsMember | src/components/biometric/app-shell.tsx:302-317 | a row is in the export exactly when it is a row of one of the records |
| CaptureWorkflow.ImageRowExported | src/components/biometric/app-shell.tsx:302-317 | the export holds the row of every stored image of every record |
| CaptureWorkflow.ExportRowsShape | src/components/biometric/app-shell.tsx:302-317 | every export row has the twelve export columns and no nested object |
| CaptureWorkflow.ExportColumnsDistinct | src/components/biometric/app-shell.tsx:304-315 | the twelve export column names are distinct |
| CaptureWorkflow.ExportCsvShape | src/components/biometric/app-shell.tsx:302-318 | when any image is stored, the CSV header is exactly the twelve columns and there is one line per image after the header |
| CaptureWorkflow.NoImagesNoCsv | src/components/biometric/app-shell.tsx:302-318 | records without any image give the serialiser no rows, so no document is produced |
| AppShell.Persisted | src/components/biometric/app-shell.tsx:237-250 | a successful write stores the snapshot; a failed write leaves storage as it was |
| AppShell.SaveNotice | src/components/biometric/app-shell.tsx:241-248 | a failed write raises the save error, and that error names the quota exactly when the quota was exceeded |
| AppShell.Controller.constructor | src/components/biometric/app-shell.tsx:39-50 | the stored map is loaded when present; no database is active; the workflow is idle |
| AppShell.Controller.DbSelect | src/components/biometric/app-shell.tsx:97-102 | the name becomes active and its records, or none, are loaded; the mirror files them; an existing database's map is unchanged |
| AppShell.Controller.DeleteDb | src/components/biometric/app-shell.tsx:104-115 | exactly that name is removed and every other database is kept; an absent name changes nothing; the new map goes to storage |
| AppShell.Controller.ResetWorkflow | src/components/biometric/app-shell.tsx:280-284 | the workflow is idle at step 0 with no record; nothing else changes |
| AppShell.Controller.GoBack | src/components/biometric/app-shell.tsx:117-121 | no database is active, the active list is empty, the workflow is reset, and the saved map is untouched |
| AppShell.Controller.StartCapture | src/components/biometric/app-shell.tsx:127-135 | the workflow is capturing at step 0, with a new record holding the fresh id, the timestamp and an empty image map |
| AppShell.Controller.StoreArtifact | src/components/biometric/app-shell.tsx:137-151 | without a record nothing happens; otherwise the current step's entry is written with loading on and every other entry is kept; well-formedness is preserved |
| AppShell.Controller.CompleteFeedback | src/components/biometric/app-shell.tsx:153-181 | as written: whatever record is current gets the routed feedback under the closed-over step, with loading cleared; a missing record stays missing |
| AppShell.Controller.CompleteFeedbackGuarded | src/components/biometric/app-shell.tsx:171-181 | corrected: only the record and the entry the artifact went into are updated, so no entry is ever created and every entry stays well formed |
| AppShell.Controller.AcceptImage | src/components/biometric/app-shell.tsx:222-228 | the status and index change exactly as `Accept` says; the record is untouched |
| AppShell.Controller.Recapture | src/components/biometric/app-shell.tsx:230-235 | exactly the current step's entry is removed and every other entry is unchanged; this is a no-op without a record |
| AppShell.Controller.SaveRecord | src/components/biometric/app-shell.tsx:252-270 | as written: without a record or name nothing happens; otherwise the record is upserted and the workflow resets whatever the write's outcome; storage gets the map as it was before the save |
| AppShell.Controller.SaveRecordPersisted | src/components/biometric/app-shell.tsx:252-270 | corrected: the same steps, but a successful write leaves the active list in storage under the database name |
| AppShell.Controller.SaveDatabase | src/components/biometric/app-shell.tsx:272-278 | with a database name the current map is written; without one nothing happens |
| AppShell.Controller.Export | src/components/biometric/app-shell.tsx:286-323 | with no records there is no export and a notice is raised; otherwise the chosen format gets the named file, and CSV gets the document of one row per image |
| AppShell.FullCapture | src/components/biometric/app-shell.tsx:127-228 | starting and then storing and accepting once per step leaves an entry for every step and the workflow validating on the last step |
| AppShell.SavedRecordMissingFromStorage | src/components/biometric/app-shell.tsx:237-262 | after selecting a new database and saving one record, storage holds the database without the record |
| AppShell.SavedRecordInStorage | src/components/biometric/app-shell.tsx:252-270 | with the corrected save, the same sequence leaves storage equal to the in-memory map |
| AppShell.LateFeedbackCorruptsNextRecord | src/components/biometric/app-shell.tsx:171-181 | a completion that lands after going back and starting the next subject writes into the new record a camera-index entry that has the late quality report and loading off, but no step id, URL, data or device |
| AppShell.LateFeedbackIgnored | src/components/biometric/app-shell.tsx:171-181 | with the guarded completion, the next subject's record stays empty |
| CaptureView.QualityCardFor | src/components/biometric/capture-view.tsx:36-57 | only a non-binary camera image has a card; while loading it reads "analyzing"; without a report there is none; a report is graded good exactly when its score is above 70 |
| CaptureView.CanCapture | src/components/biometric/capture-view.tsx:161-162 | a camera step can capture only when permission is exactly true; a scanner step always can |
| CaptureView.ControlsFor | src/components/biometric/capture-view.tsx:185-220 | the inputs appear only without an image, and the capture button only on camera steps; Accept and Recapture appear only with an image and are disabled while loading |
| CaptureView.StoredArtifactLocksDecision | src/components/biometric/capture-view.tsx:206-214 | right after a store, the inputs are gone and Accept and Recapture are disabled; a non-binary camera image reads "analyzing" |
| CaptureView.CompletionUnlocksDecision | src/components/biometric/capture-view.tsx:206-214 | after the completion the decision buttons are enabled, and a non-binary camera image is graded exactly when the quality provider answered |
| ValidationView.ScoreOrZero | src/components/biometric/validation-view.tsx:42 | the report's score, or 0 when the report is missing or `null` |
| ValidationView.TileFor | src/components/biometric/validation-view.tsx:39-75 | a step is "Missing" exactly without an image; a camera image is good iff its score, 0 without a report, is above 70; anything else is good; the indicator shows only on non-binary camera images |
| ValidationView.Tiles | src/components/biometric/validation-view.tsx:39-79 | there is one tile per step, in table order, marked missing exactly when the record lacks that step |
| ValidationView.MissingExactlyTheAbsentSteps | src/components/biometric/validation-view.tsx:49-74 | a record with every step shows no "Missing" tile, and a lacking step is shown as missing |
| ValidationView.TileAgreesWithCard | src/components/biometric/validation-view.tsx:41-43 | the tile's verdict equals the capture card's grade, and an image without a report is shown as poor |
| DatabaseDialog.UsableIffNotBlank | src/components/biometric/database-dialog.tsx:30 | `dbName.trim()` is truthy exactly when the name is not all whitespace |
| DatabaseDialog.DefaultName | src/components/biometric/database-dialog.tsx:26 | the initial name is `session-` followed by the timestamp up to its first `T`, or the whole timestamp when it has none |
| DatabaseDialog.SplitHeadIsPrefix | src/components/biometric/database-dialog.tsx:26 | the first piece of `split('T')` is the input up to its first `T`, or all of it |
| DatabaseDialog.ExistingTabEnabled | src/components/biometric/database-dialog.tsx:56 | the Existing tab is enabled exactly when there are existing databases |
| DatabaseDialog.Dialog.constructor | src/components/biometric/database-dialog.tsx:26-27 | the dialog opens on the New tab with the dated default name |
| DatabaseDialog.Dialog.EditName | src/components/biometric/database-dialog.tsx:64 | editing sets the name and keeps the tab |
| DatabaseDialog.Dialog.ChooseTab | src/components/biometric/database-dialog.tsx:53-56 | the chosen tab becomes active, except that a disabled Existing tab cannot be chosen |
| DatabaseDialog.Dialog.CreateAndStart | src/components/biometric/database-dialog.tsx:29-33 | a name that is not all whitespace is passed on trimmed, as a new database; a blank one triggers no callback |
| DatabaseDialog.Dialog.Save | src/components/biometric/database-dialog.tsx:35-40 | a name that is not all whitespace is passed on trimmed and the Existing tab becomes active; a blank one changes nothing |
| DatabaseDialog.Dialog.PickExisting | src/components/biometric/database-dialog.tsx:82-85 | picking a listed database selects it as an existing one (`isNew` false) |
| LoginPage.SignUpRejection | src/app/login/page.tsx:27-43 | a sign-up passes exactly when the passwords match and have at least 6 characters; a mismatch is reported in preference to shortness |
| LoginPage.Page.constructor | src/app/login/page.tsx:19-22 | the page opens in login mode with empty fields |
| LoginPage.Page.ToggleMode | src/app/login/page.tsx:124 | the mode link flips between sign-up and login and keeps the fields |
| LoginPage.Page.HandleAuthAction | src/app/login/page.tsx:26-60 | a rejected sign-up makes no call; otherwise the mode's call is made, success navigates to `/` and failure reports the message without navigating; login mode checks nothing |
| LoginPage.CheckOrderAndBoundary | src/app/login/page.tsx:28-43 | a mismatched short password is reported as a mismatch, and a matching password of exactly 6 characters passes |

## Left out

- The generative quality providers (`src/ai/flows/*`) are foreign calls. Each is a parameter that yields a report, or `None` when the call throws. Their reports are checked with `z.number()` only: the 0-100 range is never enforced, and a score may be fractional.
- Local storage becomes the field `storage` plus a write-outcome parameter. JSON serialisation and the parse on load are not modelled. A missing or unreadable stored entry is the constructor's `None`.
- Browser I/O is not modelled: `getUserMedia`, the canvas frame grab, `FileReader`, and the device initialisation with its timers (`app-shell.tsx:52-82`, `app-shell.tsx:184-220`). The stored artifact's data URI, device, binary flag and file name are parameters of `StoreArtifact`. The camera permission is a parameter of `CaptureView.CanCapture`.
- `generateUniqueId` and `new Date().toISOString()` depend on time and randomness. They are parameters of `StartCapture` and of the dialog's constructor.
- `urlToDataUri` and the Blob/anchor download in `exportToCsv` (`utils.ts:67-77`) are network and DOM I/O.
- `exportToSql` and `exportToIpynb` are not part of this model. `Export` only hands them the records and the file name.
- The landing page toggles (`handleGetStarted`, `handleCancelDbSelect`), the progress percentage and class merging are presentation only.
- The dialog's props do not match what `app-shell.tsx:329` passes. Only the dialog's own rules are modelled, not that wiring.
- The login inputs' `onChange` handlers are plain field assignments and have no method of their own.
- CaptureWorkflow.ExportRows: lists a record's images in step-table order. The source uses `Object.values`, which follows insertion order, and a recaptured step is re-inserted at the end.
- Csv.Value: numbers are integers only, so `String(n)` of a fractional or non-finite number is not modelled. The export rows' only numbers are the two scores, which the source allows to be fractional (such as `70.5`); their CSV text is modelled only for integer scores.
- Types.QualityFeedback: `qualityScore` and `nfiqScore` are integers here, while the source's `z.number()` admits fractional values.
- CaptureView.QualityCardFor: compares integer scores with 70. A fractional score such as `70.5` is good in the source and has no counterpart here.
- ValidationView.TileFor: compares integer scores with 70, so a fractional score just above the threshold is not modelled.
- JsString.IntToString: `String(n)` switches to exponent notation (`1e+21`) for magnitudes of at least 10^21. That form is not modelled; every integer prints as plain digits.
- CaptureWorkflow.Loaded: names inherited from `Object.prototype` (`constructor`, `toString`, `__proto__`) are not modelled. In the source, `savedDatabases[name] || []` for such a name yields a truthy non-array that later code fails on; here such a name loads the empty list.
- AppShell.Controller.constructor: the "Could not load saved databases." notice raised when the stored entry cannot be parsed (`app-shell.tsx:47-49`) is not modelled. Such an entry reaches the constructor as `None`.
- Csv.Keys: own keys are kept in insertion order. JavaScript lists integer-like keys first and walks inherited enumerable keys; neither happens for the rows built here.
- LoginPage.SignUpRejection: counts characters as Unicode scalar values. JavaScript's `length` counts UTF-16 code units, so a password containing characters outside the Basic Multilingual Plane is judged shorter here than by the source.
- AppShell.Controller.CompleteFeedback: a completion is a separate method taking the pending request. Interleavings beyond the scenario methods are not explored. Between the two halves of `processImage`, React's batching is read as the state update being applied at once.
- The mirroring effect of `app-shell.tsx:84-91` runs after the render. It is applied at the end of the handlers that change the active list or name.

## Findings

| source | as written | input that shows it | evidently intended | confidence | as-written member | corrected member |
|---|---|---|---|---|---|---|
| src/components/biometric/app-shell.tsx:237-262 | `handleSaveRecord` updates the records and then calls `saveDatabaseToLocalStorage`. That function serialises the `savedDatabases` value of the current render, which holds neither the upsert nor its mirroring. | Assuming the dialog is wired as its props intend (as wired, it is handed `savedDbs` and fails on render, see "## Left out"): select a new database "db", start a capture, then save with a successful write: storage holds "db" with no records (`AppShell.SavedRecordMissingFromStorage`). | The map written on save includes the record just saved. | not executed | AppShell.Controller.SaveRecord | AppShell.Controller.SaveRecordPersisted |
| src/components/biometric/app-shell.tsx:171-181 | The feedback completion writes into whatever record is current, under the step captured by the closure, and spreads a possibly missing entry. | Assuming the dialog is wired as its props intend (see "## Left out"): store a camera image, go back, select "db" again, start capture "FP-2", then let the first request complete: FP-2 gains a camera-index entry without step id, URL or device (`AppShell.LateFeedbackCorruptsNextRecord`). | The completion applies only to the record and the entry the artifact was stored into (`AppShell.LateFeedbackIgnored`). | not executed | AppShell.Controller.CompleteFeedback | AppShell.Controller.CompleteFeedbackGuarded |

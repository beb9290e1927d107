/** The value-level rules behind the capture-workflow handlers of
    src/components/biometric/app-shell.tsx: the step cursor, what storing an
    artifact and completing its feedback write into the image map, the
    upsert of a record into the active database, the database-map helpers
    and the rows the CSV export builds from the records. The stateful
    controller that applies them is `AppShell.Controller`. */
module CaptureWorkflow {
  import opened Types
  import opened Constants
  import JsString
  import Csv

  // ---------------------------------------------------------------------
  // The step cursor.

  /** The workflow status together with `currentStepIndex`. */
  datatype Cursor = Cursor(status: WorkflowStatus, index: nat)

  /** `handleAcceptImage`: below the last step the cursor moves on by one;
      on the last step the workflow switches to validation and the cursor
      stays put. */
  function Accept(c: Cursor): (r: Cursor)
    requires c.index < StepCount
    ensures r.index < StepCount
    ensures r.index == c.index + 1 || (r.index == c.index && r.status == Validating)
    ensures r.status == Validating <==> c.status == Validating || c.index == StepCount - 1
  {
    if c.index < StepCount - 1 then Cursor(c.status, c.index + 1) else Cursor(Validating, c.index)
  }

  /** `k` accepts in a row. */
  function Accepts(c: Cursor, k: nat): (r: Cursor)
    requires c.index < StepCount
    ensures r.index < StepCount
    decreases k
  {
    if k == 0 then c else Accepts(Accept(c), k - 1)
  }

  /** Accepting while validating changes nothing. */
  lemma {:induction false} ValidatingAbsorbs(c: Cursor, k: nat)
    requires c.index == StepCount - 1 && c.status == Validating
    ensures Accepts(c, k) == c
    decreases k
  {
    if k > 0 {
      ValidatingAbsorbs(Accept(c), k - 1);
    }
  }

  /** From a capturing cursor at step `i`, `k` accepts advance the cursor by
      `k` while that stays inside the table, and otherwise end validating
      on the last step. */
  lemma {:induction false} AcceptsFrom(i: nat, k: nat)
    requires i < StepCount
    ensures Accepts(Cursor(Capturing, i), k)
      == if i + k < StepCount then Cursor(Capturing, i + k) else Cursor(Validating, StepCount - 1)
    decreases k
  {
    if k > 0 {
      if i < StepCount - 1 {
        AcceptsFrom(i + 1, k - 1);
      } else {
        ValidatingAbsorbs(Cursor(Validating, i), k - 1);
      }
    }
  }

  /** From the start of a capture, exactly `StepCount` accepts reach
      validation and fewer never do. */
  lemma AcceptsToValidation(k: nat)
    ensures Accepts(Cursor(Capturing, 0), k).status == Validating <==> k >= StepCount
    ensures k < StepCount ==> Accepts(Cursor(Capturing, 0), k) == Cursor(Capturing, k)
  {
    AcceptsFrom(0, k);
  }

  // ---------------------------------------------------------------------
  // Artifacts in the image map.

  /** The fields the declared `CapturedImage` type makes mandatory. */
  predicate WellFormed(img: CapturedImage) {
    img.stepId.Some? && img.url.Some? && img.device.Some?
  }

  /** Every entry of a record's image map is well formed and filed under
      its own step id. */
  predicate ImagesWellFormed(images: map<StepId, CapturedImage>) {
    forall s :: s in images ==> WellFormed(images[s]) && images[s].stepId == Some(s)
  }

  /** The entry the store half of `processImage` writes: the data URI as
      both `url` and `dataUri`, loading on, and no feedback property yet. */
  function NewArtifact(step: StepId, dataUri: string, device: DeviceKind, isBinary: bool,
                       fileName: Types.Option<string>): (img: CapturedImage)
    ensures WellFormed(img) && img.stepId == Some(step)
    ensures Truthy(img.feedbackLoading)
    ensures img.url == Some(dataUri) && img.dataUri == Some(dataUri)
    ensures img.device == Some(device) && img.isBinary == Some(isBinary) && img.fileName == fileName
    ensures img.qualityFeedback == Undefined && img.nfiqFeedback == Undefined
  {
    CapturedImage(Some(step), Some(dataUri), Some(dataUri), Undefined, Some(true),
                  Some(device), Some(isBinary), fileName, Undefined)
  }

  /** Removing the entry just stored gives back the map as it was before. */
  lemma RecaptureUndoesStore(images: map<StepId, CapturedImage>, step: StepId, img: CapturedImage)
    requires step !in images
    ensures images[step := img] - {step} == images
  {
    assert (images[step := img] - {step}).Keys == images.Keys;
  }

  /** What a feedback completion writes: the reports, or `null` where a
      provider was not asked or failed, and whether a failure notice is
      shown. */
  datatype Feedback = Feedback(quality: Nullable<QualityFeedback>, nfiq: Nullable<NfiqFeedback>, failed: bool)

  /** The provider routing of `processImage`. A provider's answer is
      `None` when its call throws. */
  function RouteFeedback(device: DeviceKind, isBinary: bool,
                         qualityReply: Types.Option<QualityFeedback>,
                         nfiqReply: Types.Option<NfiqFeedback>): (f: Feedback)
    ensures f.quality != Undefined && f.nfiq != Undefined
    ensures f.quality.Present? <==> device == Camera && !isBinary && qualityReply.Some?
    ensures f.nfiq.Present? <==> device == Scanner && !isBinary && nfiqReply.Some?
    ensures f.quality.Present? ==> f.quality.value == qualityReply.value
    ensures f.nfiq.Present? ==> f.nfiq.value == nfiqReply.value
    ensures f.failed <==> !isBinary && (if device == Camera then qualityReply.None? else nfiqReply.None?)
  {
    if isBinary then Feedback(Null, Null, false)
    else
      match device
      case Camera =>
        (match qualityReply
         case Some(q) => Feedback(Present(q), Null, false)
         case None => Feedback(Null, Null, true))
      case Scanner =>
        (match nfiqReply
         case Some(n) => Feedback(Null, Present(n), false)
         case None => Feedback(Null, Null, true))
  }

  /** At most one of the two reports is ever written. */
  lemma FeedbackIsExclusive(device: DeviceKind, isBinary: bool,
                            qualityReply: Types.Option<QualityFeedback>,
                            nfiqReply: Types.Option<NfiqFeedback>)
    ensures var f := RouteFeedback(device, isBinary, qualityReply, nfiqReply);
      !(f.quality.Present? && f.nfiq.Present?) && (isBinary ==> f == Feedback(Null, Null, false))
  {
  }

  /** The value under `step`, or `None` when the map has none. */
  function Entry(images: map<StepId, CapturedImage>, step: StepId): Types.Option<CapturedImage> {
    if step in images then Some(images[step]) else None
  }

  /** The completion's `{ ...freshImages[step], qualityFeedback,
      nfiqFeedback, feedbackLoading: false }`. Spreading a missing entry
      contributes no property at all. */
  function Completed(prior: Types.Option<CapturedImage>, f: Feedback): (img: CapturedImage)
    ensures img.qualityFeedback == f.quality && img.nfiqFeedback == f.nfiq
    ensures img.feedbackLoading == Some(false)
    ensures prior.None? ==> (img.stepId.None? && img.url.None? && img.dataUri.None? && img.device.None?
      && img.isBinary.None? && img.fileName.None?)
    ensures prior.Some? ==> (img.stepId == prior.value.stepId && img.url == prior.value.url
      && img.dataUri == prior.value.dataUri && img.device == prior.value.device
      && img.isBinary == prior.value.isBinary && img.fileName == prior.value.fileName)
    ensures WellFormed(img) <==> prior.Some? && WellFormed(prior.value)
  {
    match prior
    case Some(p) => p.(qualityFeedback := f.quality, nfiqFeedback := f.nfiq, feedbackLoading := Some(false))
    case None => CapturedImage(None, None, None, f.quality, Some(false), None, None, None, f.nfiq)
  }

  /** Completing the feedback of the artifact just stored keeps the
      artifact and switches loading off. */
  lemma CompletionKeepsArtifact(step: StepId, dataUri: string, device: DeviceKind, isBinary: bool,
                                fileName: Types.Option<string>, f: Feedback)
    ensures var img := Completed(Some(NewArtifact(step, dataUri, device, isBinary, fileName)), f);
      WellFormed(img) && img.stepId == Some(step) && img.url == Some(dataUri)
      && img.device == Some(device) && img.isBinary == Some(isBinary) && img.fileName == fileName
      && !Truthy(img.feedbackLoading) && img.qualityFeedback == f.quality && img.nfiqFeedback == f.nfiq
  {
  }

  // ---------------------------------------------------------------------
  // Records of a database.

  function Ids(rs: seq<CapturedDataSet>): (ids: seq<string>)
    ensures |ids| == |rs|
    ensures forall i :: 0 <= i < |rs| ==> ids[i] == rs[i].id
  {
    seq(|rs|, i requires 0 <= i < |rs| => rs[i].id)
  }

  /** `handleSaveRecord`'s update: when a record with the same id exists,
      every such element is replaced in place (length and order kept);
      otherwise the record is appended. */
  function Upsert(rs: seq<CapturedDataSet>, rec: CapturedDataSet): (r: seq<CapturedDataSet>)
    ensures rec.id in Ids(rs) ==> |r| == |rs|
    ensures rec.id !in Ids(rs) ==> |r| == |rs| + 1 && r[|rs|] == rec
    ensures forall i :: 0 <= i < |rs| ==> r[i] == (if rs[i].id == rec.id then rec else rs[i])
  {
    if rec.id in Ids(rs) then seq(|rs|, i requires 0 <= i < |rs| => if rs[i].id == rec.id then rec else rs[i])
    else rs + [rec]
  }

  /** After an upsert the record is stored, every record with another id
      is still there, and no other record is added. */
  lemma UpsertContents(rs: seq<CapturedDataSet>, rec: CapturedDataSet)
    ensures rec in Upsert(rs, rec)
    ensures forall x :: x in rs && x.id != rec.id ==> x in Upsert(rs, rec)
    ensures forall x :: x in Upsert(rs, rec) ==> x == rec || x in rs
  {
    var r := Upsert(rs, rec);
    if rec.id in Ids(rs) {
      var i :| 0 <= i < |rs| && Ids(rs)[i] == rec.id;
      assert r[i] == rec;
    }
    forall x | x in rs && x.id != rec.id ensures x in r {
      var i :| 0 <= i < |rs| && rs[i] == x;
      assert r[i] == x;
    }
  }

  /** Upsert keeps ids unique. */
  lemma UpsertKeepsIdsDistinct(rs: seq<CapturedDataSet>, rec: CapturedDataSet)
    requires JsString.NoDup(Ids(rs))
    ensures JsString.NoDup(Ids(Upsert(rs, rec)))
  {
    var r := Upsert(rs, rec);
    forall i, j | 0 <= i < j < |r| ensures r[i].id != r[j].id {
      if j == |rs| {
        assert rs[i].id != rec.id;
      } else {
        assert rs[i].id != rs[j].id;
      }
    }
  }

  /** Saving the same record twice is the same as saving it once. */
  lemma UpsertIdempotent(rs: seq<CapturedDataSet>, rec: CapturedDataSet)
    ensures Upsert(Upsert(rs, rec), rec) == Upsert(rs, rec)
  {
    var r := Upsert(rs, rec);
    assert Ids(r)[|r| - 1] == rec.id || rec.id in Ids(rs) by {
      if rec.id !in Ids(rs) {
        assert r[|rs|] == rec;
      }
    }
    if rec.id !in Ids(rs) {
      assert rec.id in Ids(r);
    }
  }

  // ---------------------------------------------------------------------
  // The database map.

  /** `Record<string, CapturedDataSet[]>`: database name to record list. */
  type Databases = map<string, seq<CapturedDataSet>>

  /** JavaScript truthiness of `databaseName: string | null`. */
  predicate IsNamed(name: Types.Option<string>) {
    name.Some? && name.value != ""
  }

  /** `savedDatabases[name] || []`. */
  function Loaded(dbs: Databases, name: string): (rs: seq<CapturedDataSet>)
    ensures name in dbs ==> rs == dbs[name]
    ensures name !in dbs ==> rs == []
  {
    if name in dbs then dbs[name] else []
  }

  /** The effect that mirrors the active record list into the map while a
      database is named. */
  function Synced(dbs: Databases, name: Types.Option<string>, records: seq<CapturedDataSet>): (r: Databases)
    ensures IsNamed(name) ==> r.Keys == dbs.Keys + {name.value} && r[name.value] == records
    ensures forall k :: k in dbs && !(IsNamed(name) && k == name.value) ==> k in r && r[k] == dbs[k]
    ensures !IsNamed(name) ==> r == dbs
  {
    if IsNamed(name) then dbs[name.value := records] else dbs
  }

  /** Selecting a database and mirroring what was loaded leaves an existing
      entry as it was and adds an empty list for a new name. */
  lemma SelectThenSync(dbs: Databases, name: string)
    requires name != ""
    ensures Synced(dbs, Some(name), Loaded(dbs, name)) == dbs[name := Loaded(dbs, name)]
    ensures name in dbs ==> Synced(dbs, Some(name), Loaded(dbs, name)) == dbs
  {
  }

  // ---------------------------------------------------------------------
  // The rows of a CSV export.

  /** `databaseName || 'biometric-data'`. */
  function FileNameBase(name: Types.Option<string>): (base: string)
    ensures base != ""
    ensures IsNamed(name) ==> base == name.value
    ensures !IsNamed(name) ==> base == "biometric-data"
  {
    if IsNamed(name) then name.value else "biometric-data"
  }

  /** The columns of one export row, in the order the row literal lists them. */
  const ExportColumns: seq<string> := [
    "record_id", "timestamp", "step_id", "device", "is_binary", "file_name",
    "quality_score", "blur_level", "lighting_condition", "feedback",
    "nfiq_score", "nfiq_feedback"
  ]

  function StepIdText(s: StepId): string {
    match s
    case CameraIndex => "CAMERA_INDEX"
    case CameraThumb => "CAMERA_THUMB"
    case ScannerIndex => "SCANNER_INDEX"
    case ScannerThumb => "SCANNER_THUMB"
  }

  function DeviceText(d: DeviceKind): string {
    match d
    case Camera => "camera"
    case Scanner => "scanner"
  }

  function OptionalText(o: Types.Option<string>): Csv.Value {
    match o
    case Some(s) => Csv.Str(s)
    case None => Csv.Undefined
  }

  /** One object of the export's `flatMap`; optional chaining through a
      missing or `null` report yields `undefined`. */
  function ExportRow(rec: CapturedDataSet, img: CapturedImage): (row: Csv.Row)
    ensures Csv.Keys(row) == ExportColumns
    ensures Csv.NoObjects(row)
    ensures Csv.Lookup(row, "record_id") == Csv.Str(rec.id)
  {
    var q := img.qualityFeedback;
    var n := img.nfiqFeedback;
    var row := [ ("record_id", Csv.Str(rec.id)),
      ("timestamp", Csv.Str(rec.timestamp)),
      ("step_id", match img.stepId case Some(s) => Csv.Str(StepIdText(s)) case None => Csv.Undefined),
      ("device", match img.device case Some(d) => Csv.Str(DeviceText(d)) case None => Csv.Undefined),
      ("is_binary", match img.isBinary case Some(b) => Csv.Bool(b) case None => Csv.Undefined),
      ("file_name", OptionalText(img.fileName)),
      ("quality_score", if q.Present? then Csv.Num(q.value.qualityScore) else Csv.Undefined),
      ("blur_level", if q.Present? then Csv.Str(q.value.blurLevel) else Csv.Undefined),
      ("lighting_condition", if q.Present? then Csv.Str(q.value.lightingCondition) else Csv.Undefined),
      ("feedback", if q.Present? then Csv.Str(q.value.feedback) else Csv.Undefined),
      ("nfiq_score", if n.Present? then Csv.Num(n.value.nfiqScore) else Csv.Undefined),
      ("nfiq_feedback", if n.Present? then Csv.Str(n.value.feedback) else Csv.Undefined) ];
    Csv.KeysAreFirsts(row);
    row
  }

  /** In a row with exactly the export columns, the `k`-th column reads the
      `k`-th entry's value. */
  lemma ExportLookup(row: Csv.Row, k: nat)
    requires Csv.Keys(row) == ExportColumns && k < |ExportColumns|
    ensures Csv.Lookup(row, ExportColumns[k]) == row[k].1
  {
    ExportColumnsDistinct();
    Csv.KeysAreFirsts(row);
    Csv.LookupFirst(row, k);
  }

  /** The capture columns of an export row hold the record's timestamp and
      the image's step id, device, binary flag and file name, each
      `undefined` when the image lacks it. */
  lemma ExportRowCaptureValues(rec: CapturedDataSet, img: CapturedImage)
    ensures var row := ExportRow(rec, img);
      && Csv.Lookup(row, "timestamp") == Csv.Str(rec.timestamp)
      && Csv.Lookup(row, "step_id") == (if img.stepId.Some? then Csv.Str(StepIdText(img.stepId.value)) else Csv.Undefined)
      && Csv.Lookup(row, "device") == (if img.device.Some? then Csv.Str(DeviceText(img.device.value)) else Csv.Undefined)
      && Csv.Lookup(row, "is_binary") == (if img.isBinary.Some? then Csv.Bool(img.isBinary.value) else Csv.Undefined)
      && Csv.Lookup(row, "file_name") == (if img.fileName.Some? then Csv.Str(img.fileName.value) else Csv.Undefined)
  {
    var row := ExportRow(rec, img);
    ExportLookup(row, 1);
    ExportLookup(row, 2);
    ExportLookup(row, 3);
    ExportLookup(row, 4);
    ExportLookup(row, 5);
  }

  /** The feedback columns of an export row hold the quality report's score,
      blur level, lighting and feedback and the NFIQ report's score and
      feedback; all are `undefined` when the report is missing or `null`. */
  lemma ExportRowFeedbackValues(rec: CapturedDataSet, img: CapturedImage)
    ensures var row := ExportRow(rec, img);
      var q := img.qualityFeedback;
      var n := img.nfiqFeedback;
      && Csv.Lookup(row, "quality_score") == (if q.Present? then Csv.Num(q.value.qualityScore) else Csv.Undefined)
      && Csv.Lookup(row, "blur_level") == (if q.Present? then Csv.Str(q.value.blurLevel) else Csv.Undefined)
      && Csv.Lookup(row, "lighting_condition") == (if q.Present? then Csv.Str(q.value.lightingCondition) else Csv.Undefined)
      && Csv.Lookup(row, "feedback") == (if q.Present? then Csv.Str(q.value.feedback) else Csv.Undefined)
      && Csv.Lookup(row, "nfiq_score") == (if n.Present? then Csv.Num(n.value.nfiqScore) else Csv.Undefined)
      && Csv.Lookup(row, "nfiq_feedback") == (if n.Present? then Csv.Str(n.value.feedback) else Csv.Undefined)
  {
    var row := ExportRow(rec, img);
    ExportLookup(row, 6);
    ExportLookup(row, 7);
    ExportLookup(row, 8);
    ExportLookup(row, 9);
    ExportLookup(row, 10);
    ExportLookup(row, 11);
  }

  /** The rows of one record for the step ids `ids`, skipping ids without
      an image: at most one per id, each with exactly the export columns,
      no nested object, and the record's id. */
  function RowsFor(rec: CapturedDataSet, ids: seq<StepId>): (rows: seq<Csv.Row>)
    ensures |rows| <= |ids|
    ensures forall i :: 0 <= i < |rows| ==>
      Csv.Keys(rows[i]) == ExportColumns && Csv.NoObjects(rows[i])
      && Csv.Lookup(rows[i], "record_id") == Csv.Str(rec.id)
    decreases |ids|
  {
    if ids == [] then []
    else (if ids[0] in rec.images then [ExportRow(rec, rec.images[ids[0]])] else []) + RowsFor(rec, ids[1..])
  }

  /** The ids of `ids` that have an image, as a set. */
  function WithImage(keys: set<StepId>, ids: seq<StepId>): (p: set<StepId>)
    ensures forall x :: x in p <==> x in keys && x in ids
    decreases |ids|
  {
    if ids == [] then {}
    else (if ids[0] in keys then {ids[0]} else {}) + WithImage(keys, ids[1..])
  }

  lemma {:induction false} RowsForCount(rec: CapturedDataSet, ids: seq<StepId>)
    requires JsString.NoDup(ids)
    ensures |RowsFor(rec, ids)| == |WithImage(rec.images.Keys, ids)|
    decreases |ids|
  {
    if ids != [] {
      var rest := ids[1..];
      JsString.NoDupTail(ids);
      RowsForCount(rec, rest);
      JsString.NoDupFirst(ids);
      assert ids[0] !in WithImage(rec.images.Keys, rest);
    }
  }

  /** The rows of one record: one per stored image, in step-table order. */
  function RecordRows(rec: CapturedDataSet): (rows: seq<Csv.Row>)
    ensures |rows| == |rec.images|
  {
    RowsForTable(rec);
    RowsFor(rec, TableIds)
  }

  lemma RowsForTable(rec: CapturedDataSet)
    ensures |RowsFor(rec, TableIds)| == |rec.images|
  {
    Constants.StepIdsDistinctAndComplete();
    RowsForCount(rec, TableIds);
    WithImageOfTable(rec.images.Keys);
    assert |rec.images| == |rec.images.Keys|;
  }

  /** Every step id is in the table, so filtering the table keeps all keys. */
  lemma WithImageOfTable(keys: set<StepId>)
    ensures WithImage(keys, TableIds) == keys
  {
    Constants.StepIdsDistinctAndComplete();
    forall x | x in keys ensures x in WithImage(keys, TableIds) {
      assert x in TableIds;
    }
  }

  /** `RowsFor` holds the row of every listed step that has an image, and
      nothing else. */
  lemma {:induction false} RowsForMembers(rec: CapturedDataSet, ids: seq<StepId>)
    ensures forall s :: s in ids && s in rec.images ==> ExportRow(rec, rec.images[s]) in RowsFor(rec, ids)
    ensures forall row :: row in RowsFor(rec, ids) ==>
      exists s :: s in ids && s in rec.images && row == ExportRow(rec, rec.images[s])
    decreases |ids|
  {
    if ids != [] {
      RowsForMembers(rec, ids[1..]);
      assert forall s :: s in ids ==> s == ids[0] || s in ids[1..];
    }
  }

  /** A record's rows are the rows of its stored images: each stored image
      has its row, and every row belongs to a stored image. */
  lemma RecordRowsMembers(rec: CapturedDataSet)
    ensures forall s :: s in rec.images ==> ExportRow(rec, rec.images[s]) in RecordRows(rec)
    ensures forall row :: row in RecordRows(rec) ==>
      exists s :: s in rec.images && row == ExportRow(rec, rec.images[s])
  {
    Constants.StepIdsDistinctAndComplete();
    RowsForMembers(rec, TableIds);
  }

  /** The number of images stored across the records. */
  function ImageCount(rs: seq<CapturedDataSet>): nat
    decreases |rs|
  {
    if rs == [] then 0 else |rs[0].images| + ImageCount(rs[1..])
  }

  /** `allRecords.flatMap(record => Object.values(record.images).map(...))`:
      exactly one row per stored image across all records. */
  function ExportRows(rs: seq<CapturedDataSet>): (rows: seq<Csv.Row>)
    ensures |rows| == ImageCount(rs)
    decreases |rs|
  {
    if rs == [] then [] else RecordRows(rs[0]) + ExportRows(rs[1..])
  }

  /** A row is in the export exactly when it is a row of one of the records. */
  lemma {:induction false} ExportRowsMember(rs: seq<CapturedDataSet>, row: Csv.Row)
    ensures row in ExportRows(rs) <==> exists k :: 0 <= k < |rs| && row in RecordRows(rs[k])
    decreases |rs|
  {
    if rs != [] {
      var rest := rs[1..];
      ExportRowsMember(rest, row);
      assert ExportRows(rs) == RecordRows(rs[0]) + ExportRows(rest);
      if row in ExportRows(rest) {
        var k :| 0 <= k < |rest| && row in RecordRows(rest[k]);
        assert rest[k] == rs[k + 1];
      }
      if exists k :: 0 <= k < |rs| && row in RecordRows(rs[k]) {
        var k :| 0 <= k < |rs| && row in RecordRows(rs[k]);
        if k > 0 {
          assert rs[k] == rest[k - 1];
        }
      }
    }
  }

  /** The export holds the row of each stored image of each record. */
  lemma ImageRowExported(rs: seq<CapturedDataSet>, k: nat, s: StepId)
    requires k < |rs| && s in rs[k].images
    ensures ExportRow(rs[k], rs[k].images[s]) in ExportRows(rs)
  {
    RecordRowsMembers(rs[k]);
    ExportRowsMember(rs, ExportRow(rs[k], rs[k].images[s]));
  }

  /** Every export row has exactly the export columns, and no nested object. */
  lemma {:induction false} ExportRowsShape(rs: seq<CapturedDataSet>)
    ensures forall i :: 0 <= i < |ExportRows(rs)| ==>
      Csv.Keys(ExportRows(rs)[i]) == ExportColumns && Csv.NoObjects(ExportRows(rs)[i])
    decreases |rs|
  {
    if rs != [] {
      ExportRowsShape(rs[1..]);
    }
  }

  lemma ExportColumnsDistinct()
    ensures JsString.NoDup(ExportColumns)
  {
  }

  /** Rows that all carry the same distinct keys flatten to themselves. */
  lemma {:induction false} FlatRowsOfUniform(rows: seq<Csv.Row>)
    requires forall i :: 0 <= i < |rows| ==> Csv.Keys(rows[i]) == ExportColumns && Csv.NoObjects(rows[i])
    ensures Csv.FlatRows(rows) == rows
  {
    ExportColumnsDistinct();
    forall i | 0 <= i < |rows| ensures Csv.FlatRows(rows)[i] == rows[i] {
      Csv.FlatRowOfFlatRow(rows[i]);
    }
  }

  lemma {:induction false} AllKeysOfUniform(rows: seq<Csv.Row>)
    requires |rows| > 0
    requires forall i :: 0 <= i < |rows| ==> Csv.Keys(rows[i]) == ExportColumns
    ensures Csv.Headers(rows) == ExportColumns
  {
    var all := Csv.AllKeys(rows);
    AllKeysUniform(rows);
    assert all == ExportColumns + Csv.AllKeys(rows[1..]);
    Csv.FirstOccurrencesAbsorbs(ExportColumns, Csv.AllKeys(rows[1..]));
    ExportColumnsDistinct();
    Csv.FirstOccurrencesOfDistinct(ExportColumns);
  }

  lemma {:induction false} AllKeysUniform(rows: seq<Csv.Row>)
    requires forall i :: 0 <= i < |rows| ==> Csv.Keys(rows[i]) == ExportColumns
    ensures forall x :: x in Csv.AllKeys(rows) ==> x in ExportColumns
    decreases |rows|
  {
    if rows != [] {
      AllKeysUniform(rows[1..]);
    }
  }

  /** A CSV export of records holding at least one image has exactly the
      twelve export columns as its header and one line per image. */
  lemma ExportCsvShape(rs: seq<CapturedDataSet>)
    requires ImageCount(rs) > 0
    ensures Csv.Headers(Csv.FlatRows(ExportRows(rs))) == ExportColumns
    ensures |Csv.CsvLines(ExportRows(rs))| == ImageCount(rs) + 1
    ensures Csv.CsvLines(ExportRows(rs))[0] == JsString.Join(ExportColumns, ",")
  {
    ExportRowsShape(rs);
    FlatRowsOfUniform(ExportRows(rs));
    AllKeysOfUniform(ExportRows(rs));
  }

  /** Records without any image give the CSV serialiser no rows, so it
      produces no document. */
  lemma NoImagesNoCsv(rs: seq<CapturedDataSet>)
    requires ImageCount(rs) == 0
    ensures Csv.CsvDocument(ExportRows(rs)) == Types.None
  {
  }
}

/** The capture-workflow controller of src/components/biometric/app-shell.tsx.
    Its React state becomes the fields of `Controller`, each handler a
    method that updates them. The effect that mirrors `allRecords` into
    `savedDatabases` while a database is named is applied at the end of the
    handlers that change either. Local storage is the field `storage`; a
    write's outcome (stored, quota exceeded, other failure) is a parameter,
    and so are the replies of the two feedback providers, the fresh record
    id and the clock reading. */
module AppShell {
  import opened Types
  import opened Constants
  import opened CaptureWorkflow
  import Csv

  /** How a `localStorage.setItem` call ends. */
  datatype PersistOutcome = Stored | QuotaExceeded | StoreFailed

  /** The toast a handler raises, if any. */
  datatype Notice =
    | Silent
    | DatabaseReady(name: string)
    | DatabaseDeleted(name: string)
    | DeleteFailed
    | RecordSaved(recordId: string, database: string)
    | DatabaseSaved(database: string)
    | SaveFailed(quotaExceeded: bool)
    | AnalysisFailed
    | NoDataToExport
    | ExportSucceeded(fileName: string)

  datatype ExportFormat = SqlFormat | CsvFormat | NotebookFormat

  /** What an export hands on. The SQL and notebook writers are not part
      of this model and are shown receiving the records; for CSV the
      document the serialiser builds is given. */
  datatype ExportOutcome =
    | NoExport
    | SqlExport(fileName: string, records: seq<CapturedDataSet>)
    | CsvExport(fileName: string, document: Option<string>)
    | NotebookExport(fileName: string, records: seq<CapturedDataSet>)

  /** What the pending feedback request of `processImage` closes over: the
      step it stored into, the artifact's device and binary flag, and (used
      only by the guarded completion) the record it was stored into. */
  datatype PendingFeedback = PendingFeedback(step: StepId, device: DeviceKind, isBinary: bool, recordId: string)

  /** The storage content after a write of `snapshot` that ended with
      `outcome`; a failed write leaves the previous content. */
  function Persisted(storage: Option<Databases>, snapshot: Databases, outcome: PersistOutcome): (r: Option<Databases>)
    ensures outcome == Stored ==> r == Some(snapshot)
    ensures outcome != Stored ==> r == storage
  {
    if outcome == Stored then Some(snapshot) else storage
  }

  /** The toast of `saveDatabaseToLocalStorage`'s callers: `success` when the
      write went through, otherwise the save error, whose text names the
      quota when that was the cause. */
  function SaveNotice(outcome: PersistOutcome, success: Notice): (n: Notice)
    ensures outcome == Stored ==> n == success
    ensures outcome != Stored ==> n == SaveFailed(outcome == QuotaExceeded)
  {
    if outcome == Stored then success else SaveFailed(outcome == QuotaExceeded)
  }

  class Controller {
    var databaseName: Option<string>
    var savedDatabases: Databases
    var allRecords: seq<CapturedDataSet>
    var workflowStatus: WorkflowStatus
    var currentStepIndex: nat
    var currentCaptureData: Option<CapturedDataSet>
    /** The `biometric-databases` entry of local storage. */
    var storage: Option<Databases>

    /** The step cursor stays inside the step table. */
    predicate Valid()
      reads this
    {
      currentStepIndex < StepCount
    }

    /** The current record, if any, holds only well-formed entries. */
    predicate RecordWellFormed()
      reads this
    {
      currentCaptureData.None? || ImagesWellFormed(currentCaptureData.value.images)
    }

    /** Mounting: the stored map is loaded when present (`None` stands for
        a missing or unreadable entry), nothing is selected and no capture
        is running. */
    constructor(stored: Option<Databases>)
      ensures Valid() && RecordWellFormed()
      ensures databaseName == None && allRecords == []
      ensures workflowStatus == Idle && currentStepIndex == 0 && currentCaptureData == None
      ensures savedDatabases == (if stored.Some? then stored.value else map[])
      ensures storage == stored
    {
      databaseName := None;
      savedDatabases := if stored.Some? then stored.value else map[];
      allRecords := [];
      workflowStatus := Idle;
      currentStepIndex := 0;
      currentCaptureData := None;
      storage := stored;
    }

    /** `handleDbSelect`: the name becomes active and its records are
        loaded, or none for an unknown name; the mirroring effect then
        files the loaded list under a non-empty name. */
    method DbSelect(name: string) returns (notice: Notice)
      requires Valid()
      modifies this
      ensures Valid()
      ensures databaseName == Some(name)
      ensures allRecords == Loaded(old(savedDatabases), name)
      ensures savedDatabases == Synced(old(savedDatabases), Some(name), allRecords)
      ensures name in old(savedDatabases) ==> savedDatabases == old(savedDatabases)
      ensures notice == DatabaseReady(name)
      ensures workflowStatus == old(workflowStatus) && currentStepIndex == old(currentStepIndex)
      ensures currentCaptureData == old(currentCaptureData) && storage == old(storage)
    {
      databaseName := Some(name);
      allRecords := Loaded(savedDatabases, name);
      savedDatabases := Synced(savedDatabases, databaseName, allRecords);
      notice := DatabaseReady(name);
    }

    /** `handleDeleteDb`: removes exactly that name from the map and writes
        the new map to storage. */
    method DeleteDb(name: string, outcome: PersistOutcome) returns (notice: Notice)
      requires Valid()
      modifies this
      ensures Valid()
      ensures savedDatabases.Keys == old(savedDatabases).Keys - {name}
      ensures forall k :: k in savedDatabases ==> savedDatabases[k] == old(savedDatabases)[k]
      ensures name !in old(savedDatabases) ==> savedDatabases == old(savedDatabases)
      ensures storage == Persisted(old(storage), savedDatabases, outcome)
      ensures notice == (if outcome == Stored then DatabaseDeleted(name) else DeleteFailed)
      ensures databaseName == old(databaseName) && allRecords == old(allRecords)
      ensures workflowStatus == old(workflowStatus) && currentStepIndex == old(currentStepIndex)
      ensures currentCaptureData == old(currentCaptureData)
    {
      savedDatabases := savedDatabases - {name};
      storage := Persisted(storage, savedDatabases, outcome);
      notice := if outcome == Stored then DatabaseDeleted(name) else DeleteFailed;
    }

    /** `handleResetWorkflow`. */
    method ResetWorkflow()
      modifies this
      ensures Valid() && RecordWellFormed()
      ensures workflowStatus == Idle && currentStepIndex == 0 && currentCaptureData == None
      ensures databaseName == old(databaseName) && savedDatabases == old(savedDatabases)
      ensures allRecords == old(allRecords) && storage == old(storage)
    {
      workflowStatus := Idle;
      currentStepIndex := 0;
      currentCaptureData := None;
    }

    /** `handleGoBack`: no database is active any more and the workflow is
        reset; with no name the mirroring effect does nothing. */
    method GoBack()
      modifies this
      ensures Valid() && RecordWellFormed()
      ensures databaseName == None && allRecords == []
      ensures workflowStatus == Idle && currentStepIndex == 0 && currentCaptureData == None
      ensures savedDatabases == old(savedDatabases) && storage == old(storage)
    {
      databaseName := None;
      allRecords := [];
      ResetWorkflow();
    }

    /** `handleStartCapture`: capturing from the first step into a new,
        empty record with the given fresh id and timestamp. */
    method StartCapture(freshId: string, now: string)
      modifies this
      ensures Valid() && RecordWellFormed()
      ensures workflowStatus == Capturing && currentStepIndex == 0
      ensures currentCaptureData == Some(CapturedDataSet(freshId, map[], now))
      ensures databaseName == old(databaseName) && savedDatabases == old(savedDatabases)
      ensures allRecords == old(allRecords) && storage == old(storage)
    {
      workflowStatus := Capturing;
      currentStepIndex := 0;
      currentCaptureData := Some(CapturedDataSet(freshId, map[], now));
    }

    /** The synchronous half of `processImage`: without a record nothing
        happens; otherwise the current step's entry is (re)written with
        loading on, every other entry is kept, and the pending feedback
        request is returned. */
    method StoreArtifact(dataUri: string, device: DeviceKind, isBinary: bool, fileName: Option<string>)
      returns (pending: Option<PendingFeedback>)
      requires Valid()
      modifies this
      ensures Valid()
      ensures old(RecordWellFormed()) ==> RecordWellFormed()
      ensures old(currentCaptureData).None? ==> pending.None? && currentCaptureData.None?
      ensures old(currentCaptureData).Some? ==>
        var d := old(currentCaptureData).value;
        var step := CaptureSteps[currentStepIndex].id;
        && pending == Some(PendingFeedback(step, device, isBinary, d.id))
        && currentCaptureData == Some(d.(images := d.images[step := NewArtifact(step, dataUri, device, isBinary, fileName)]))
      ensures databaseName == old(databaseName) && savedDatabases == old(savedDatabases)
      ensures allRecords == old(allRecords) && storage == old(storage)
      ensures workflowStatus == old(workflowStatus) && currentStepIndex == old(currentStepIndex)
    {
      if currentCaptureData.None? {
        return None;
      }
      var d := currentCaptureData.value;
      var step := CaptureSteps[currentStepIndex].id;
      var updatedImages := d.images[step := NewArtifact(step, dataUri, device, isBinary, fileName)];
      currentCaptureData := Some(d.(images := updatedImages));
      pending := Some(PendingFeedback(step, device, isBinary, d.id));
    }

    /** The asynchronous half of `processImage`, as written: whatever record
        is current when the providers answer gets the feedback under the
        step the request closed over. A missing record stays missing; a
        missing entry is created from nothing. */
    method CompleteFeedback(pending: PendingFeedback, qualityReply: Option<QualityFeedback>,
                            nfiqReply: Option<NfiqFeedback>) returns (notice: Notice)
      requires Valid()
      modifies this
      ensures Valid()
      ensures var f := RouteFeedback(pending.device, pending.isBinary, qualityReply, nfiqReply);
        && notice == (if f.failed then AnalysisFailed else Silent)
        && (old(currentCaptureData).None? ==> currentCaptureData.None?)
        && (old(currentCaptureData).Some? ==>
              var d := old(currentCaptureData).value;
              currentCaptureData == Some(d.(images := d.images[pending.step := Completed(Entry(d.images, pending.step), f)])))
      ensures databaseName == old(databaseName) && savedDatabases == old(savedDatabases)
      ensures allRecords == old(allRecords) && storage == old(storage)
      ensures workflowStatus == old(workflowStatus) && currentStepIndex == old(currentStepIndex)
    {
      var f := RouteFeedback(pending.device, pending.isBinary, qualityReply, nfiqReply);
      notice := if f.failed then AnalysisFailed else Silent;
      if currentCaptureData.Some? {
        var d := currentCaptureData.value;
        var freshImages := d.images[pending.step := Completed(Entry(d.images, pending.step), f)];
        currentCaptureData := Some(d.(images := freshImages));
      }
    }

    /** The completion as evidently intended: it applies only to the record
        and the entry the artifact was stored into, so it never creates an
        entry and keeps every entry well formed. */
    method CompleteFeedbackGuarded(pending: PendingFeedback, qualityReply: Option<QualityFeedback>,
                                   nfiqReply: Option<NfiqFeedback>) returns (notice: Notice)
      requires Valid()
      modifies this
      ensures Valid()
      ensures old(RecordWellFormed()) ==> RecordWellFormed()
      ensures currentCaptureData.None? <==> old(currentCaptureData).None?
      ensures currentCaptureData.Some? ==>
        currentCaptureData.value.images.Keys == old(currentCaptureData).value.images.Keys
      ensures var f := RouteFeedback(pending.device, pending.isBinary, qualityReply, nfiqReply);
        && notice == (if f.failed then AnalysisFailed else Silent)
        && (old(currentCaptureData).Some? && old(currentCaptureData).value.id == pending.recordId
            && pending.step in old(currentCaptureData).value.images ==>
              var d := old(currentCaptureData).value;
              currentCaptureData == Some(d.(images := d.images[pending.step := Completed(Some(d.images[pending.step]), f)])))
        && ((old(currentCaptureData).None? || old(currentCaptureData).value.id != pending.recordId
             || pending.step !in old(currentCaptureData).value.images) ==> currentCaptureData == old(currentCaptureData))
      ensures databaseName == old(databaseName) && savedDatabases == old(savedDatabases)
      ensures allRecords == old(allRecords) && storage == old(storage)
      ensures workflowStatus == old(workflowStatus) && currentStepIndex == old(currentStepIndex)
    {
      var f := RouteFeedback(pending.device, pending.isBinary, qualityReply, nfiqReply);
      notice := if f.failed then AnalysisFailed else Silent;
      if currentCaptureData.Some? && currentCaptureData.value.id == pending.recordId
         && pending.step in currentCaptureData.value.images {
        var d := currentCaptureData.value;
        var freshImages := d.images[pending.step := Completed(Some(d.images[pending.step]), f)];
        assert freshImages.Keys == d.images.Keys;
        currentCaptureData := Some(d.(images := freshImages));
      }
    }

    /** `handleAcceptImage`, read off `Accept`. */
    method AcceptImage()
      requires Valid()
      modifies this
      ensures Valid()
      ensures Cursor(workflowStatus, currentStepIndex) == Accept(old(Cursor(workflowStatus, currentStepIndex)))
      ensures databaseName == old(databaseName) && savedDatabases == old(savedDatabases)
      ensures allRecords == old(allRecords) && storage == old(storage)
      ensures currentCaptureData == old(currentCaptureData)
    {
      if currentStepIndex < StepCount - 1 {
        currentStepIndex := currentStepIndex + 1;
      } else {
        workflowStatus := Validating;
      }
    }

    /** `handleRecapture`: removes exactly the current step's entry; a
        no-op without a record. */
    method Recapture()
      requires Valid()
      modifies this
      ensures Valid()
      ensures old(RecordWellFormed()) ==> RecordWellFormed()
      ensures old(currentCaptureData).None? ==> currentCaptureData.None?
      ensures old(currentCaptureData).Some? ==>
        var d := old(currentCaptureData).value;
        var step := CaptureSteps[currentStepIndex].id;
        && currentCaptureData.Some? && currentCaptureData.value.id == d.id
        && currentCaptureData.value.timestamp == d.timestamp
        && currentCaptureData.value.images.Keys == d.images.Keys - {step}
        && forall s :: s in currentCaptureData.value.images ==> currentCaptureData.value.images[s] == d.images[s]
      ensures databaseName == old(databaseName) && savedDatabases == old(savedDatabases)
      ensures allRecords == old(allRecords) && storage == old(storage)
      ensures workflowStatus == old(workflowStatus) && currentStepIndex == old(currentStepIndex)
    {
      if currentCaptureData.None? {
        return;
      }
      var d := currentCaptureData.value;
      var step := CaptureSteps[currentStepIndex].id;
      currentCaptureData := Some(d.(images := d.images - {step}));
    }

    /** `handleSaveRecord`, as written. Without a record or a database name
        nothing happens. Otherwise the record is upserted into the active
        list and the workflow resets whether or not storage accepted the
        write; but the write stores the map as it was BEFORE the upsert,
        because the handler serialises the `savedDatabases` value of its
        own render. */
    method SaveRecord(outcome: PersistOutcome) returns (notice: Notice)
      requires Valid()
      modifies this
      ensures Valid()
      ensures old(RecordWellFormed()) ==> RecordWellFormed()
      ensures old(currentCaptureData).None? || !IsNamed(old(databaseName)) ==>
        && notice == Silent && databaseName == old(databaseName) && savedDatabases == old(savedDatabases)
        && allRecords == old(allRecords) && storage == old(storage)
        && workflowStatus == old(workflowStatus) && currentStepIndex == old(currentStepIndex)
        && currentCaptureData == old(currentCaptureData)
      ensures old(currentCaptureData).Some? && IsNamed(old(databaseName)) ==>
        var rec := old(currentCaptureData).value;
        && databaseName == old(databaseName)
        && allRecords == Upsert(old(allRecords), rec)
        && savedDatabases == Synced(old(savedDatabases), databaseName, allRecords)
        && storage == Persisted(old(storage), old(savedDatabases), outcome)
        && notice == SaveNotice(outcome, RecordSaved(rec.id, databaseName.value))
        && workflowStatus == Idle && currentStepIndex == 0 && currentCaptureData == None
    {
      if currentCaptureData.None? || !IsNamed(databaseName) {
        return Silent;
      }
      var rec := currentCaptureData.value;
      allRecords := Upsert(allRecords, rec);
      storage := Persisted(storage, savedDatabases, outcome);
      notice := SaveNotice(outcome, RecordSaved(rec.id, databaseName.value));
      ResetWorkflow();
      savedDatabases := Synced(savedDatabases, databaseName, allRecords);
    }

    /** `handleSaveRecord` as evidently intended: the map written to storage
        is the one that already holds the saved record, so reloading the
        stored map gives back exactly the active list. */
    method SaveRecordPersisted(outcome: PersistOutcome) returns (notice: Notice)
      requires Valid()
      modifies this
      ensures Valid()
      ensures old(RecordWellFormed()) ==> RecordWellFormed()
      ensures old(currentCaptureData).None? || !IsNamed(old(databaseName)) ==>
        && notice == Silent && databaseName == old(databaseName) && savedDatabases == old(savedDatabases)
        && allRecords == old(allRecords) && storage == old(storage)
        && workflowStatus == old(workflowStatus) && currentStepIndex == old(currentStepIndex)
        && currentCaptureData == old(currentCaptureData)
      ensures old(currentCaptureData).Some? && IsNamed(old(databaseName)) ==>
        var rec := old(currentCaptureData).value;
        && databaseName == old(databaseName)
        && allRecords == Upsert(old(allRecords), rec)
        && savedDatabases == Synced(old(savedDatabases), databaseName, allRecords)
        && storage == Persisted(old(storage), savedDatabases, outcome)
        && (outcome == Stored ==> databaseName.value in storage.value && storage.value[databaseName.value] == allRecords)
        && notice == SaveNotice(outcome, RecordSaved(rec.id, databaseName.value))
        && workflowStatus == Idle && currentStepIndex == 0 && currentCaptureData == None
    {
      if currentCaptureData.None? || !IsNamed(databaseName) {
        return Silent;
      }
      var rec := currentCaptureData.value;
      allRecords := Upsert(allRecords, rec);
      savedDatabases := Synced(savedDatabases, databaseName, allRecords);
      storage := Persisted(storage, savedDatabases, outcome);
      notice := SaveNotice(outcome, RecordSaved(rec.id, databaseName.value));
      ResetWorkflow();
    }

    /** `handleSaveDatabase`: with a database name, the current map is
        written to storage. */
    method SaveDatabase(outcome: PersistOutcome) returns (notice: Notice)
      requires Valid()
      modifies this
      ensures Valid()
      ensures !IsNamed(databaseName) ==> notice == Silent && storage == old(storage)
      ensures IsNamed(databaseName) ==>
        storage == Persisted(old(storage), savedDatabases, outcome)
        && notice == SaveNotice(outcome, DatabaseSaved(databaseName.value))
      ensures databaseName == old(databaseName) && savedDatabases == old(savedDatabases)
      ensures allRecords == old(allRecords) && currentCaptureData == old(currentCaptureData)
      ensures workflowStatus == old(workflowStatus) && currentStepIndex == old(currentStepIndex)
    {
      if !IsNamed(databaseName) {
        return Silent;
      }
      storage := Persisted(storage, savedDatabases, outcome);
      notice := SaveNotice(outcome, DatabaseSaved(databaseName.value));
    }

    /** `handleExport`: nothing at all without records; otherwise the file
        is named after the database (or `biometric-data`) and, for CSV, the
        document is built from one row per stored image. */
    method Export(format: ExportFormat) returns (out: ExportOutcome, notice: Notice)
      requires Valid()
      ensures out == NoExport <==> |allRecords| == 0
      ensures |allRecords| == 0 ==> notice == NoDataToExport
      ensures |allRecords| > 0 ==>
        var base := FileNameBase(databaseName);
        match format
        case SqlFormat => out == SqlExport(base + ".sql", allRecords) && notice == ExportSucceeded(base + ".sql")
        case CsvFormat =>
          && out == CsvExport(base + ".csv", Csv.CsvDocument(ExportRows(allRecords)))
          && notice == ExportSucceeded(base + ".csv")
        case NotebookFormat =>
          out == NotebookExport(base + ".ipynb", allRecords) && notice == ExportSucceeded(base + ".ipynb")
    {
      if |allRecords| == 0 {
        return NoExport, NoDataToExport;
      }
      var base := FileNameBase(databaseName);
      match format
      case SqlFormat =>
        out := SqlExport(base + ".sql", allRecords);
        notice := ExportSucceeded(base + ".sql");
      case CsvFormat =>
        var document := Csv.ExportToCsv(ExportRows(allRecords));
        out := CsvExport(base + ".csv", document);
        notice := ExportSucceeded(base + ".csv");
      case NotebookFormat =>
        out := NotebookExport(base + ".ipynb", allRecords);
        notice := ExportSucceeded(base + ".ipynb");
    }
  }

  // ---------------------------------------------------------------------
  // Scenarios: handler sequences and what they leave behind.

  /** A full capture: start, then store and accept once per step. The
      record ends up with one well-formed, loading entry per step and the
      workflow validating on the last step. */
  method FullCapture() returns (c: Controller)
    ensures c.Valid() && c.RecordWellFormed()
    ensures c.workflowStatus == Validating && c.currentStepIndex == StepCount - 1
    ensures c.currentCaptureData.Some? && c.currentCaptureData.value.images.Keys == AllStepIds
  {
    c := new Controller(None);
    var ready := c.DbSelect("db");
    c.StartCapture("FP-1", "t0");
    var i := 0;
    while i < StepCount
      invariant 0 <= i <= StepCount
      invariant c.Valid() && c.RecordWellFormed()
      invariant c.currentCaptureData.Some?
      invariant forall s :: s in c.currentCaptureData.value.images <==> s in TableIds[..i]
      invariant i < StepCount ==> c.workflowStatus == Capturing && c.currentStepIndex == i
      invariant i == StepCount ==> c.workflowStatus == Validating && c.currentStepIndex == StepCount - 1
    {
      Constants.StepIdsDistinctAndComplete();
      var p := c.StoreArtifact("data:image/jpeg;base64,AA==", CaptureSteps[i].device, false, None);
      c.AcceptImage();
      i := i + 1;
    }
    Constants.StepIdsDistinctAndComplete();
    assert TableIds[..StepCount] == TableIds;
    assert c.currentCaptureData.value.images.Keys == AllStepIds;
  }

  /** Saving a record into a newly selected database: the record is in the
      in-memory map but not in what storage received. */
  method SavedRecordMissingFromStorage() returns (c: Controller)
    ensures c.databaseName == Some("db") && |c.allRecords| == 1
    ensures "db" in c.savedDatabases && c.savedDatabases["db"] == c.allRecords
    ensures c.storage == Some(map["db" := []])
  {
    c := new Controller(None);
    var ready := c.DbSelect("db");
    c.StartCapture("FP-1", "t0");
    var saved := c.SaveRecord(Stored);
  }

  /** The same sequence with the corrected save: storage holds the record. */
  method SavedRecordInStorage() returns (c: Controller)
    ensures c.databaseName == Some("db") && |c.allRecords| == 1
    ensures c.storage == Some(c.savedDatabases)
    ensures "db" in c.savedDatabases && c.savedDatabases["db"] == c.allRecords
  {
    c := new Controller(None);
    var ready := c.DbSelect("db");
    c.StartCapture("FP-1", "t0");
    var saved := c.SaveRecordPersisted(Stored);
  }

  /** A feedback request still running when the user goes back and starts
      the next subject's capture: its completion writes an entry without
      step id, URL or device into the new record. */
  method LateFeedbackCorruptsNextRecord() returns (c: Controller)
    ensures c.currentCaptureData.Some? && c.currentCaptureData.value.id == "FP-2"
    ensures CameraIndex in c.currentCaptureData.value.images
    ensures !WellFormed(c.currentCaptureData.value.images[CameraIndex])
    ensures var e := c.currentCaptureData.value.images[CameraIndex];
      && e.stepId.None? && e.url.None? && e.dataUri.None? && e.device.None?
      && e.qualityFeedback == Present(QualityFeedback(90, "low", "well-lit", "ok"))
      && e.feedbackLoading == Some(false)
    ensures !c.RecordWellFormed()
  {
    c := new Controller(None);
    var ready := c.DbSelect("db");
    c.StartCapture("FP-1", "t0");
    var p := c.StoreArtifact("data:image/jpeg;base64,AA==", Camera, false, None);
    c.GoBack();
    ready := c.DbSelect("db");
    c.StartCapture("FP-2", "t1");
    var n := c.CompleteFeedback(p.value, Some(QualityFeedback(90, "low", "well-lit", "ok")), None);
  }

  /** The same sequence with the guarded completion: the new record stays empty. */
  method LateFeedbackIgnored() returns (c: Controller)
    ensures c.currentCaptureData == Some(CapturedDataSet("FP-2", map[], "t1"))
    ensures c.RecordWellFormed()
  {
    c := new Controller(None);
    var ready := c.DbSelect("db");
    c.StartCapture("FP-1", "t0");
    var p := c.StoreArtifact("data:image/jpeg;base64,AA==", Camera, false, None);
    c.GoBack();
    ready := c.DbSelect("db");
    c.StartCapture("FP-2", "t1");
    var n := c.CompleteFeedbackGuarded(p.value, Some(QualityFeedback(90, "low", "well-lit", "ok")), None);
  }
}

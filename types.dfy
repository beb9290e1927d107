/** The data model of the capture workflow: capture steps, devices, captured
    images and the per-subject record that collects them (src/lib/types.ts). */
module Types {

  datatype Option<T> = None | Some(value: T)

  /** A JavaScript property that may be missing (`undefined`), explicitly
      `null`, or hold a value; `qualityFeedback?: X | null` has all three. */
  datatype Nullable<T> = Undefined | Null | Present(value: T)

  /** The closed enumeration `CaptureStepId`. */
  datatype StepId = CameraIndex | CameraThumb | ScannerIndex | ScannerThumb

  /** The kind of device a step uses: `'camera' | 'scanner'`. */
  datatype DeviceKind = Camera | Scanner

  datatype DeviceStatus = Connected | Disconnected | Checking

  datatype DeviceName = PhoneCamera | FingerprintScanner

  datatype Device = Device(name: DeviceName, status: DeviceStatus)

  datatype CaptureStep = CaptureStep(
    id: StepId,
    title: string,
    instructions: string,
    device: DeviceKind,
    placeholderId: string,
    previewId: string)

  /** The general image-quality report of the camera feedback provider.
      The provider describes the score as 0-100 but nothing enforces it. */
  datatype QualityFeedback = QualityFeedback(
    qualityScore: int,
    blurLevel: string,
    lightingCondition: string,
    feedback: string)

  /** The fingerprint-specific report of the scanner feedback provider. */
  datatype NfiqFeedback = NfiqFeedback(nfiqScore: int, feedback: string)

  /** One captured artifact. The declared type makes `stepId`, `url` and
      `device` mandatory, but the feedback completion can build an object by
      spreading a missing entry, which then has none of them; they are
      therefore `Option` here. `nfiqFeedback` is written by the controller
      although the declared type omits it. */
  datatype CapturedImage = CapturedImage(
    stepId: Option<StepId>,
    url: Option<string>,
    dataUri: Option<string>,
    qualityFeedback: Nullable<QualityFeedback>,
    feedbackLoading: Option<bool>,
    device: Option<DeviceKind>,
    isBinary: Option<bool>,
    fileName: Option<string>,
    nfiqFeedback: Nullable<NfiqFeedback>)

  /** One subject's capture session; the image map is partial. */
  datatype CapturedDataSet = CapturedDataSet(
    id: string,
    images: map<StepId, CapturedImage>,
    timestamp: string)

  datatype WorkflowStatus = Idle | Capturing | Validating

  /** JavaScript truthiness of an optional boolean: `undefined` and `false`
      are falsy, only `true` is truthy. */
  predicate Truthy(b: Option<bool>): (t: bool)
    ensures b.None? ==> !t
    ensures b == Some(false) ==> !t
    ensures b == Some(true) ==> t
  {
    b == Some(true)
  }

  /** Every step id, as a set. */
  const AllStepIds: set<StepId> := {CameraIndex, CameraThumb, ScannerIndex, ScannerThumb}
}

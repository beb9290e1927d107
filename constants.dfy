/** The fixed capture-step table and the initial device list
    (src/lib/constants.ts). */
module Constants {
  import opened Types

  /** `CAPTURE_STEPS`: the order of this table drives the capture sequence. */
  const CaptureSteps: seq<CaptureStep> := [
    CaptureStep(CameraIndex, "Capture Index Finger Photo",
      "Position the subject's RIGHT INDEX finger in front of the phone camera.",
      Camera, "camera-index-capture", "camera-preview"),
    CaptureStep(CameraThumb, "Capture Thumb Photo",
      "Position the subject's RIGHT THUMB in front of the phone camera.",
      Camera, "camera-thumb-capture", "camera-preview"),
    CaptureStep(ScannerIndex, "Scan Index Finger",
      "Place the subject's RIGHT INDEX finger on the fingerprint scanner.",
      Scanner, "scanner-index-capture", "scanner-preview"),
    CaptureStep(ScannerThumb, "Scan Thumb",
      "Place the subject's RIGHT THUMB on the fingerprint scanner.",
      Scanner, "scanner-thumb-capture", "scanner-preview")
  ]

  /** `INITIAL_DEVICES`. */
  const InitialDevices: seq<Device> := [
    Device(PhoneCamera, Checking),
    Device(FingerprintScanner, Checking)
  ]

  /** The number of steps, `CAPTURE_STEPS.length`. */
  const StepCount: nat := |CaptureSteps|

  /** The table has four steps, in the order camera-index, camera-thumb,
      scanner-index, scanner-thumb; the first two use the camera and the
      last two the scanner. */
  lemma StepTableShape()
    ensures StepCount == 4
    ensures CaptureSteps[0].id == CameraIndex && CaptureSteps[1].id == CameraThumb
    ensures CaptureSteps[2].id == ScannerIndex && CaptureSteps[3].id == ScannerThumb
    ensures forall i :: 0 <= i < 2 ==> CaptureSteps[i].device == Camera
    ensures forall i :: 2 <= i < StepCount ==> CaptureSteps[i].device == Scanner
  {
  }

  /** The step ids of the table, in table order. */
  const TableIds: seq<StepId> := [CameraIndex, CameraThumb, ScannerIndex, ScannerThumb]

  /** Step ids are pairwise distinct and every `CaptureStepId` has a step. */
  lemma StepIdsDistinctAndComplete()
    ensures |TableIds| == StepCount
    ensures forall i :: 0 <= i < StepCount ==> TableIds[i] == CaptureSteps[i].id
    ensures forall i, j :: 0 <= i < j < |TableIds| ==> TableIds[i] != TableIds[j]
    ensures forall s: StepId :: s in TableIds
    ensures forall s: StepId :: s in AllStepIds
    ensures |AllStepIds| == StepCount
  {
    forall s: StepId ensures s in TableIds && s in AllStepIds {
      assert TableIds[IndexOfStep(s)] == s;
      assert s.CameraIndex? || s.CameraThumb? || s.ScannerIndex? || s.ScannerThumb?;
    }
  }

  /** The position of a step id in the table. */
  function IndexOfStep(s: StepId): (i: nat)
    ensures i < StepCount && CaptureSteps[i].id == s
  {
    match s
    case CameraIndex => 0
    case CameraThumb => 1
    case ScannerIndex => 2
    case ScannerThumb => 3
  }

  /** The device a step id uses, read off the table. */
  function DeviceOf(s: StepId): (d: DeviceKind)
    ensures d == CaptureSteps[IndexOfStep(s)].device
    ensures d == Camera <==> s == CameraIndex || s == CameraThumb
  {
    if s == CameraIndex || s == CameraThumb then Camera else Scanner
  }

  /** Both devices start out in status `checking`. */
  lemma InitialDevicesChecking()
    ensures |InitialDevices| == 2
    ensures InitialDevices[0].name == PhoneCamera && InitialDevices[1].name == FingerprintScanner
    ensures forall i :: 0 <= i < |InitialDevices| ==> InitialDevices[i].status == Checking
  {
  }
}

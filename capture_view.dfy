/** The decision rules of the capture screen
    (src/components/biometric/capture-view.tsx): which quality card is
    shown for the current image, when the camera may capture, and which
    inputs and buttons are offered and enabled. */
module CaptureView {
  import opened Types
  import opened CaptureWorkflow

  /** The quality threshold: a score is good strictly above 70. */
  const GoodQualityThreshold: int := 70

  /** What `ImageQualityCard` renders. */
  datatype QualityCard = NoCard | Analyzing | Assessment(good: bool, report: QualityFeedback)

  /** The card is only for non-binary camera images; while feedback is
      loading it says so; with no report it is absent; otherwise it grades
      the report's score. */
  function QualityCardFor(img: CapturedImage): (card: QualityCard)
    ensures card != NoCard ==> img.device == Some(Camera) && !Truthy(img.isBinary)
    ensures img.device == Some(Camera) && !Truthy(img.isBinary) && Truthy(img.feedbackLoading) ==> card == Analyzing
    ensures card.Assessment? <==>
      img.device == Some(Camera) && !Truthy(img.isBinary) && !Truthy(img.feedbackLoading) && img.qualityFeedback.Present?
    ensures card.Assessment? ==>
      card.report == img.qualityFeedback.value && (card.good <==> card.report.qualityScore > GoodQualityThreshold)
  {
    if Truthy(img.isBinary) || img.device != Some(Camera) then NoCard
    else if Truthy(img.feedbackLoading) then Analyzing
    else if !img.qualityFeedback.Present? then NoCard
    else Assessment(img.qualityFeedback.value.qualityScore > GoodQualityThreshold, img.qualityFeedback.value)
  }

  /** `canCapture`: a camera step needs permission that is exactly `true`
      (`null` while unknown counts as no); a scanner step always can. */
  function CanCapture(device: DeviceKind, permission: Option<bool>): (r: bool)
    ensures r <==> device == Scanner || permission == Some(true)
  {
    match device
    case Camera => Truthy(permission)
    case Scanner => true
  }

  /** What the capture card offers. */
  datatype Controls = Controls(
    captureButton: bool,
    captureEnabled: bool,
    uploadInput: bool,
    decisionButtons: bool,
    decisionEnabled: bool,
    awaitingInput: bool)

  /** Without an image: the upload input, for a camera step also the
      capture button (enabled by `CanCapture`), and the disabled
      "awaiting input" button. With an image: Recapture and Accept, both
      disabled while feedback is loading. */
  function ControlsFor(device: DeviceKind, image: Option<CapturedImage>, permission: Option<bool>): (c: Controls)
    ensures c.uploadInput <==> image.None?
    ensures c.captureButton <==> image.None? && device == Camera
    ensures c.captureButton ==> (c.captureEnabled <==> permission == Some(true))
    ensures c.decisionButtons <==> image.Some?
    ensures c.awaitingInput <==> !c.decisionButtons
    ensures c.decisionEnabled <==> image.Some? && !Truthy(image.value.feedbackLoading)
  {
    Controls(
      image.None? && device == Camera,
      CanCapture(device, permission),
      image.None?,
      image.Some?,
      image.Some? && !Truthy(image.value.feedbackLoading),
      image.None?)
  }

  /** Right after an artifact is stored the capture inputs disappear,
      Accept and Recapture are shown but disabled, and a non-binary camera
      image shows the analysing card. */
  lemma StoredArtifactLocksDecision(step: StepId, dataUri: string, device: DeviceKind, isBinary: bool,
                                    fileName: Option<string>, permission: Option<bool>)
    ensures var img := NewArtifact(step, dataUri, device, isBinary, fileName);
      var c := ControlsFor(device, Some(img), permission);
      && !c.uploadInput && !c.captureButton && c.decisionButtons && !c.decisionEnabled
      && QualityCardFor(img) == (if device == Camera && !isBinary then Analyzing else NoCard)
  {
  }

  /** Once the feedback completes Accept and Recapture are enabled, and a
      non-binary camera image is graded exactly when the quality provider
      answered. */
  lemma CompletionUnlocksDecision(step: StepId, dataUri: string, isBinary: bool, fileName: Option<string>,
                                  qualityReply: Option<QualityFeedback>, nfiqReply: Option<NfiqFeedback>,
                                  permission: Option<bool>)
    ensures var f := RouteFeedback(Camera, isBinary, qualityReply, nfiqReply);
      var img := Completed(Some(NewArtifact(step, dataUri, Camera, isBinary, fileName)), f);
      && ControlsFor(Camera, Some(img), permission).decisionEnabled
      && (QualityCardFor(img).Assessment? <==> !isBinary && qualityReply.Some?)
      && (QualityCardFor(img).Assessment? ==>
            (QualityCardFor(img).good <==> qualityReply.value.qualityScore > GoodQualityThreshold))
  {
    CompletionKeepsArtifact(step, dataUri, Camera, isBinary, fileName,
                            RouteFeedback(Camera, isBinary, qualityReply, nfiqReply));
  }
}

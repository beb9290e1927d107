/** The review screen (src/components/biometric/validation-view.tsx): one
    tile per step of the table, in table order, marked "Missing" when the
    record has no image for it and graded for quality. */
module ValidationView {
  import opened Types
  import opened Constants
  import opened CaptureWorkflow
  import CaptureView

  /** One tile of the review grid. */
  datatype Tile = Tile(step: StepId, title: string, missing: bool, good: bool, indicator: bool)

  /** `image.qualityFeedback?.qualityScore ?? 0`: the report's score, or 0
      when the report is missing or `null`. */
  function ScoreOrZero(img: CapturedImage): (score: int)
    ensures img.qualityFeedback.Present? ==> score == img.qualityFeedback.value.qualityScore
    ensures !img.qualityFeedback.Present? ==> score == 0
  {
    if img.qualityFeedback.Present? then img.qualityFeedback.value.qualityScore else 0
  }

  /** A camera image is good when its score (0 without a report) is above
      the threshold; anything else, including a missing image, is good.
      The quality indicator is drawn only on non-binary camera images. */
  function TileFor(step: CaptureStep, image: Option<CapturedImage>): (t: Tile)
    ensures t.step == step.id && t.title == step.title
    ensures t.missing <==> image.None?
    ensures t.indicator <==> image.Some? && image.value.device == Some(Camera) && !Truthy(image.value.isBinary)
    ensures image.Some? && image.value.device == Some(Camera) ==>
      (t.good <==> image.value.qualityFeedback.Present?
                   && image.value.qualityFeedback.value.qualityScore > CaptureView.GoodQualityThreshold)
    ensures !(image.Some? && image.value.device == Some(Camera)) ==> t.good
  {
    var isCamera := image.Some? && image.value.device == Some(Camera);
    Tile(step.id, step.title, image.None?,
         if isCamera then ScoreOrZero(image.value) > CaptureView.GoodQualityThreshold else true,
         isCamera && !Truthy(image.value.isBinary))
  }

  /** `CAPTURE_STEPS.map(...)`: every step, in table order. */
  function Tiles(data: CapturedDataSet): (ts: seq<Tile>)
    ensures |ts| == StepCount
    ensures forall i :: 0 <= i < StepCount ==> ts[i].step == TableIds[i] && ts[i].title == CaptureSteps[i].title
    ensures forall i :: 0 <= i < StepCount ==> (ts[i].missing <==> TableIds[i] !in data.images)
  {
    Constants.StepIdsDistinctAndComplete();
    seq(StepCount, i requires 0 <= i < StepCount => TileFor(CaptureSteps[i], Entry(data.images, CaptureSteps[i].id)))
  }

  /** A record holding an image for every step shows no "Missing" tile,
      and one that lacks a step shows that step as missing. */
  lemma MissingExactlyTheAbsentSteps(data: CapturedDataSet)
    ensures data.images.Keys == AllStepIds ==> forall i :: 0 <= i < StepCount ==> !Tiles(data)[i].missing
    ensures forall s: StepId :: s !in data.images ==> Tiles(data)[IndexOfStep(s)].missing
  {
    Constants.StepIdsDistinctAndComplete();
    if data.images.Keys == AllStepIds {
      forall i | 0 <= i < StepCount ensures !Tiles(data)[i].missing {
        assert TableIds[i] in AllStepIds;
      }
    }
  }

  /** Where the tile shows its indicator and the capture screen showed a
      graded card, both give the same verdict; a graded-less image (no
      report) is shown as poor on the tile. */
  lemma TileAgreesWithCard(step: CaptureStep, img: CapturedImage)
    requires img.device == Some(Camera) && !Truthy(img.isBinary) && !Truthy(img.feedbackLoading)
    ensures TileFor(step, Some(img)).indicator
    ensures CaptureView.QualityCardFor(img).Assessment? ==>
      TileFor(step, Some(img)).good == CaptureView.QualityCardFor(img).good
    ensures CaptureView.QualityCardFor(img) == CaptureView.NoCard ==> !TileFor(step, Some(img)).good
  {
  }
}

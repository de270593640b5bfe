/**
 * `processModelPredictions`: reads the model's output vector as a credibility
 * score (slot 0), a subject distribution (slots 1 to 4: politics, technology,
 * science, entertainment) and a sentiment distribution (slots 5 to 7:
 * positive, neutral, negative), clamping every value to [0, 1].
 *
 * Values are reals. JavaScript reads a missing slot 0 as `undefined`, which
 * `Math.max` turns into NaN; the model writes that NaN as a missing
 * credibility score (`None`).
 */
module Predictions {
  import opened Wrappers
  import JsString

  /** `Math.max` on two reals: the larger of the two. */
  function MathMax(a: real, b: real): (r: real)
    ensures a <= r && b <= r
    ensures r == a || r == b
  {
    if a < b then b else a
  }

  /** `Math.min` on two reals: the smaller of the two. */
  function MathMin(a: real, b: real): (r: real)
    ensures r <= a && r <= b
    ensures r == a || r == b
  {
    if b < a then b else a
  }

  /** The unit-interval clamp, stated independently of `Math.min` and `Math.max`. */
  function Clamp01(x: real): (r: real)
    ensures 0.0 <= r <= 1.0
    ensures 0.0 <= x <= 1.0 ==> r == x
  {
    if x < 0.0 then 0.0 else if x > 1.0 then 1.0 else x
  }

  /** Both ways the source writes the clamp, max-then-min and min-then-max, are the unit-interval clamp. */
  lemma ClampOrdersAgree(x: real)
    ensures MathMin(MathMax(x, 0.0), 1.0) == Clamp01(x)
    ensures MathMax(0.0, MathMin(x, 1.0)) == Clamp01(x)
  {
  }

  /** Clamping twice is clamping once. */
  lemma Clamp01Idempotent(x: real)
    ensures Clamp01(Clamp01(x)) == Clamp01(x)
  {
  }

  /** `xs.map(p => Math.max(0, Math.min(p, 1)))`. */
  function ClampEach(xs: seq<real>): (r: seq<real>)
    ensures |r| == |xs|
    ensures forall i | 0 <= i < |xs| :: r[i] == Clamp01(xs[i])
  {
    seq(|xs|, i requires 0 <= i < |xs| => MathMax(0.0, MathMin(xs[i], 1.0)))
  }

  datatype ModelResults = ModelResults(
    credibilityScore: Option<real>,
    subjectDistribution: seq<real>,
    sentimentDistribution: seq<real>)

  /** All three parts of a result lie in [0, 1]. */
  predicate InUnitInterval(r: ModelResults)
  {
    && (r.credibilityScore.Some? ==> 0.0 <= r.credibilityScore.value <= 1.0)
    && (forall i | 0 <= i < |r.subjectDistribution| :: 0.0 <= r.subjectDistribution[i] <= 1.0)
    && (forall i | 0 <= i < |r.sentimentDistribution| :: 0.0 <= r.sentimentDistribution[i] <= 1.0)
  }

  function ProcessModelPredictions(predictions: seq<real>): (r: ModelResults)
    ensures r.credibilityScore.None? <==> |predictions| == 0
    ensures r.credibilityScore.Some? ==> r.credibilityScore.value == Clamp01(predictions[0])
    ensures |r.subjectDistribution| == JsString.Min(4, JsString.Max(0, |predictions| - 1))
    ensures forall i | 0 <= i < |r.subjectDistribution| ::
      r.subjectDistribution[i] == Clamp01(predictions[1 + i])
    ensures |r.sentimentDistribution| == JsString.Min(3, JsString.Max(0, |predictions| - 5))
    ensures forall i | 0 <= i < |r.sentimentDistribution| ::
      r.sentimentDistribution[i] == Clamp01(predictions[5 + i])
    ensures InUnitInterval(r)
  {
    var credibilityScore :=
      if |predictions| == 0 then None else Some(MathMin(MathMax(predictions[0], 0.0), 1.0));
    var subjectDist := ClampEach(JsString.Slice(predictions, 1, 5));
    var sentimentDist := ClampEach(JsString.Slice(predictions, 5, 8));
    ClampOrdersAgree(if |predictions| == 0 then 0.0 else predictions[0]);
    ModelResults(credibilityScore, subjectDist, sentimentDist)
  }

  /** The eight slots a complete result stands for: score, four subjects, three sentiments. */
  function ResultVector(r: ModelResults): seq<real>
    requires r.credibilityScore.Some?
  {
    [r.credibilityScore.value] + r.subjectDistribution + r.sentimentDistribution
  }

  /** On a full vector whose values are already in [0, 1], the result carries them unchanged. */
  lemma InRangePredictionsUnchanged(predictions: seq<real>)
    requires |predictions| == 8
    requires forall i | 0 <= i < 8 :: 0.0 <= predictions[i] <= 1.0
    ensures ResultVector(ProcessModelPredictions(predictions)) == predictions
  {
  }

  /** Processing the vector of a processed result changes nothing: the clamps are idempotent. */
  lemma ProcessModelPredictionsIdempotent(predictions: seq<real>)
    requires |predictions| >= 1
    ensures ProcessModelPredictions(ResultVector(ProcessModelPredictions(predictions)))
         == ProcessModelPredictions(predictions)
  {
  }
}

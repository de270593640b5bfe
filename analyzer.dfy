/**
 * `analyzeNews` and the analyze button: the input gate (empty text first,
 * then the model-loaded flag), the enable rule of the button, and the flow
 * from accepted text to the processed results. The model's inference is a
 * parameter: a function from the input vector to the output vector, or
 * `None` when inference fails.
 */
module Analyzer {
  import opened Wrappers
  import opened JsString
  import opened Preprocess
  import opened Predictions

  datatype AnalyzeError = EmptyText | ModelNotReady | AnalysisFailed

  /** The message shown to the user for each error. */
  function ErrorMessage(e: AnalyzeError): (m: string)
    ensures m != []
  {
    match e
    case EmptyText => "Please enter news text to analyze"
    case ModelNotReady => "Model is not ready. Please wait and try again."
    case AnalysisFailed => "Failed to analyze news. Please try again."
  }

  /** Each error has its own message, so the user can tell which check stopped the analysis. */
  lemma ErrorMessageDistinct(e1: AnalyzeError, e2: AnalyzeError)
    ensures ErrorMessage(e1) == ErrorMessage(e2) ==> e1 == e2
  {
    assert |ErrorMessage(EmptyText)| == 33;
    assert |ErrorMessage(ModelNotReady)| == 46;
    assert |ErrorMessage(AnalysisFailed)| == 41;
  }

  /** What the gate at the top of `analyzeNews` decides. */
  datatype Gate = Rejected(error: AnalyzeError) | Accepted(text: string)

  /** Trim the input, reject it when empty, then reject it when the model is not loaded. */
  function AnalyzeGate(inputValue: string, isModelLoaded: bool): (g: Gate)
    ensures g == Rejected(EmptyText) <==> Trim(inputValue) == []
    ensures g == Rejected(ModelNotReady) <==> Trim(inputValue) != [] && !isModelLoaded
    ensures g.Accepted? <==> Trim(inputValue) != [] && isModelLoaded
    ensures g.Accepted? ==> g.text == Trim(inputValue)
    ensures g != Rejected(AnalysisFailed)
  {
    var text := Trim(inputValue);
    if text == [] then Rejected(EmptyText)
    else if !isModelLoaded then Rejected(ModelNotReady)
    else Accepted(text)
  }

  /** The empty-text check comes first: for empty text the model flag is never looked at. */
  lemma EmptyTextCheckedFirst(inputValue: string, loaded1: bool, loaded2: bool)
    requires Trim(inputValue) == []
    ensures AnalyzeGate(inputValue, loaded1) == AnalyzeGate(inputValue, loaded2) == Rejected(EmptyText)
  {
  }

  /** Empty and whitespace-only input is rejected as empty, whatever the model state. */
  lemma WhitespaceOnlyRejected(inputValue: string, isModelLoaded: bool)
    requires forall i | 0 <= i < |inputValue| :: IsWhitespace(inputValue[i])
    ensures AnalyzeGate(inputValue, isModelLoaded) == Rejected(EmptyText)
  {
    TrimEmptyIff(inputValue);
  }

  /** Input holding any non-whitespace character is never rejected as empty. */
  lemma VisibleTextNotEmpty(inputValue: string, isModelLoaded: bool, k: nat)
    requires k < |inputValue| && !IsWhitespace(inputValue[k])
    ensures AnalyzeGate(inputValue, isModelLoaded) != Rejected(EmptyText)
  {
    TrimEmptyIff(inputValue);
  }

  /**
   * `!value.trim() || !isModelLoaded`, the disabled state set on every input
   * event: disabled exactly when the box holds only whitespace or the model
   * is not loaded.
   */
  function AnalyzeButtonDisabled(inputValue: string, isModelLoaded: bool): (disabled: bool)
    ensures disabled <==> (forall i | 0 <= i < |inputValue| :: IsWhitespace(inputValue[i])) || !isModelLoaded
  {
    TrimEmptyIff(inputValue);
    Trim(inputValue) == [] || !isModelLoaded
  }

  /** After an input event, the button is enabled exactly when pressing it would pass the gate. */
  lemma ButtonEnabledIffAccepted(inputValue: string, isModelLoaded: bool)
    ensures !AnalyzeButtonDisabled(inputValue, isModelLoaded) <==> AnalyzeGate(inputValue, isModelLoaded).Accepted?
  {
  }

  /**
   * `analyzeNews` without the display: gate the input, build the input
   * vector from the trimmed text, run inference, and process its output.
   */
  method AnalyzeNews(inputValue: string, isModelLoaded: bool, predict: seq<int> -> Option<seq<real>>)
    returns (outcome: Result<ModelResults, AnalyzeError>)
    ensures AnalyzeGate(inputValue, isModelLoaded).Rejected? ==>
      outcome == Failure(AnalyzeGate(inputValue, isModelLoaded).error)
    ensures AnalyzeGate(inputValue, isModelLoaded).Accepted? ==>
      outcome == match predict(InputVector(Trim(inputValue)))
                 case None => Failure(AnalysisFailed)
                 case Some(predictions) => Success(ProcessModelPredictions(predictions))
    ensures outcome.Success? ==> InUnitInterval(outcome.value)
  {
    var text := Trim(inputValue);
    if text == [] {
      return Failure(EmptyText);
    }
    if !isModelLoaded {
      return Failure(ModelNotReady);
    }
    var inputVector := PreprocessText(text);
    var predictions := predict(inputVector);
    if predictions.None? {
      return Failure(AnalysisFailed);
    }
    outcome := Success(ProcessModelPredictions(predictions.value));
  }
}

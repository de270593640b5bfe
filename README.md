# News analyzer: text preprocessing, prediction post-processing and input gating

This project is a verified Dafny model of the logic inside `script.js`, the
browser script of a single-page news-credibility analyzer. A user pastes an
article and presses "Analyze News". The script first checks the input. It
then turns the text into a 100-slot input vector, runs a hosted model on
that vector, and reads the model's output as a credibility score, a
distribution over four subjects and a distribution over three sentiments.
The model covers the parts of that flow that are in the script itself:

- **Text cleaning** (`preprocessText`). The text is lower-cased. Every
  character that is neither a word character (`[A-Za-z0-9_]`) nor whitespace
  is deleted, whitespace runs become one space, and the ends are trimmed.
  Module `JsString` writes out the JavaScript built-ins this relies on
  (`toLowerCase`, the two regular-expression replaces, `trim`, `split(' ')`,
  `slice`). Module `Preprocess` composes them as `CleanText`, and proves
  that the tokens of the cleaned text are the words (maximal runs of
  characters other than whitespace) of the lower-cased text with punctuation
  deleted.
- **Input vector** (`preprocessText`). The cleaned text is split on `' '`,
  and slot i of a zero-filled 100-slot array is set to 1 for each of the
  first `min(tokens, 100)` tokens. `Preprocess.PreprocessText` does this with
  a loop over an array and is proved equal to the specification function
  `Preprocess.InputVector`.
- **Prediction post-processing** (`processModelPredictions`). Slot 0 is
  clamped to [0, 1] as the credibility score. Slots 1 to 4 and 5 to 7 are
  sliced out and clamped element by element. This is `Predictions.ProcessModelPredictions`.
- **Input gating** (`analyzeNews` and the button rule). Text that is empty
  after trimming is rejected first. Only after that is a model that has not
  finished loading rejected. On every input event the script sets the
  analyze button's disabled state, and the state it sets is disabled exactly
  when one of those two rejections would happen. Module `Analyzer` states the gate,
  the button rule and the whole `analyzeNews` flow. Model inference is a
  function parameter in that flow.

Character classes follow JavaScript regular expressions without the `u`
flag. `\w` is `[A-Za-z0-9_]`. `\s` (also the set `trim` removes) is the
ECMAScript whitespace and line-terminator set. `toLowerCase` is exact on
ASCII. It is also exact on the two non-ASCII characters whose lower-case form
contains an ASCII letter: U+0130, which becomes `i` followed by U+0307, and
the Kelvin sign U+212A, which becomes `k`. The model leaves every other
character as it is. For such a character this differs from JavaScript only
in the intermediate text: in both, the next step deletes it or keeps it as
the same whitespace. So `CleanText` agrees with the script on every string
of Unicode scalar values.

The prediction values are reals. When the output vector is empty,
`predictions[0]` is `undefined` in JavaScript and the clamp yields NaN. The
model writes that case as a missing credibility score (`None`).

## Model

| member | source | states |
|---|---|---|
| `JsString.LowerChar` | script.js:102 | An ASCII capital becomes the lower-case letter at the same place in the alphabet; a character that is neither an ASCII capital nor U+0130 nor U+212A stays as it is; no result holds an ASCII capital |
| `JsString.ToLowerCase` | script.js:102 | The lower-cased text contains no ASCII capital letter |
| `JsString.ToLowerCaseAppend` | script.js:102 | Lower-casing a concatenation is concatenating the lower-cased parts |
| `JsString.ToLowerCasePointwise` | script.js:102 | Without U+0130, the lower-cased text has the input's length, and character i is the lower-case form of input character i: ASCII capitals shifted to small letters, U+212A to `k`, everything else unchanged |
| `JsString.ToLowerCaseIdentity` | script.js:102 | Text without capitals (and without U+0130, U+212A) is its own lower-case form |
| `JsString.RemoveNonWordNonSpace` | script.js:103 | Every character left is a word character or whitespace and comes from the input; the result is no longer than the input |
| `JsString.RemoveNonWordNonSpaceCount` | script.js:103 | Each word or whitespace character keeps all its occurrences; every other character occurs zero times |
| `JsString.RemoveNonWordNonSpaceAppend` | script.js:103 | Filtering a concatenation is concatenating the filtered parts, so the kept characters stay in their order |
| `JsString.RemoveLeadingPunctuation` | script.js:103 | A leading character that is neither a word character nor whitespace is deleted and the kept rest is unchanged |
| `JsString.RemoveNonWordNonSpaceIdentity` | script.js:103 | Text made only of word characters and whitespace is unchanged |
| `JsString.CollapseWhitespace` | script.js:104 | The result never has two adjacent spaces, is no longer than the input, and starts with the input's first character when that is not whitespace |
| `JsString.CollapseWhitespaceChars` | script.js:104 | The only whitespace left is the space; every other character left comes from the input |
| `JsString.CollapseWhitespaceIdentity` | script.js:104 | Text whose only whitespace is single spaces is unchanged |
| `JsString.CollapseWhitespaceKeepsText` | script.js:104 | The non-whitespace characters are exactly the input's, in order |
| `JsString.TrimStartSpec` | script.js:104 | The leading-trim result is a suffix of the input that does not start with whitespace, and everything removed is whitespace |
| `JsString.TrimEndSpec` | script.js:104 | The trailing-trim result is a prefix of the input that does not end with whitespace, and everything removed is whitespace |
| `JsString.Trim` | script.js:104 | The trimmed text is no longer than the input and neither starts nor ends with whitespace |
| `JsString.TrimIsSlice` | script.js:104 | `trim` returns a contiguous slice that neither starts nor ends with whitespace, with only whitespace outside it |
| `JsString.TrimIdentity` | script.js:104 | Text that neither starts nor ends with whitespace is its own trim |
| `JsString.TrimEmptyIff` | script.js:61-63 | The trimmed text is empty exactly when every character of the input is whitespace |
| `JsString.TrimKeepsText` | script.js:104 | Trimming removes only whitespace: the other characters stay, in order |
| `JsString.Split` | script.js:107 | `split(' ')` yields one more piece than there are spaces (so one empty piece for empty text), and no piece contains a space |
| `JsString.JoinSplit` | script.js:107 | Joining the pieces of a split with spaces gives back the text |
| `JsString.SplitJoin` | script.js:107 | Splitting the space-join of space-free pieces gives back the pieces |
| `JsString.Words` | script.js:104-107 | Reference definition of the words of a text, left to right: each word is non-empty and holds no whitespace |
| `JsString.WordsEmptyIff` | script.js:104-107 | A text has no words exactly when it is all whitespace |
| `JsString.CollapseTrimIsJoinedWords` | script.js:104 | Collapsing whitespace runs to one space and trimming gives exactly the words of the input joined by single spaces |
| `JsString.SplitCollapsedIsWords` | script.js:104-107 | Splitting the collapsed and trimmed text on spaces gives the words of the input, or one empty piece when it has none |
| `JsString.DoubleSpaceWords` | script.js:104-107 | Two characters other than whitespace separated by two spaces are two one-character words |
| `JsString.Slice` | script.js:112 | `slice(start, end)` has length `max(0, min(end, len) - min(start, len))` and element i is input element `start + i` |
| `Preprocess.CleanText` | script.js:102-104 | The cleaned text holds only `[a-z0-9_]` and spaces, has no space at either end and never two spaces in a row |
| `Preprocess.CleanedIsFixedPoint` | script.js:102-104 | Text already of that shape passes through cleaning unchanged |
| `Preprocess.CleanTextIdempotent` | script.js:102-104 | Cleaning cleaned text returns it unchanged |
| `Preprocess.CleanedIffFixedPoint` | script.js:102-104 | A text has the cleaned shape exactly when cleaning leaves it unchanged |
| `Preprocess.CleanTextKeepsWords` | script.js:102-104 | After lower-casing and deleting punctuation no further character other than whitespace is lost or reordered |
| `Preprocess.CleanTextTokens` | script.js:102-107 | The tokens of the cleaned text are the words of the lower-cased text with punctuation deleted, in order, or one empty token when there is no word |
| `Preprocess.SplitPiecesNonEmpty` | script.js:104-107 | Without double spaces or a trailing space, every piece after the first is non-empty, and the first is empty only for empty text or a leading space |
| `Preprocess.CleanTokensAreWords` | script.js:102-107 | Splitting a non-empty cleaned text yields non-empty words over `[a-z0-9_]` |
| `Preprocess.InputVector` | script.js:107-114 | The input vector has exactly 100 entries, each 0 or 1, and entry 0 is always 1 because a split yields at least one piece |
| `Preprocess.InputVectorOnesFirst` | script.js:111-114 | The vector is a run of ones followed by zeros: a 1 is never preceded by a 0 |
| `Preprocess.InputVectorCountsTokens` | script.js:107-114 | The vector holds `min(spaces in cleaned text + 1, 100)` ones and the rest zeros; equally, `min(max(1, number of words of the lower-cased text with punctuation deleted), 100)` ones |
| `Preprocess.PunctuationOnlyInput` | script.js:102-114 | `"!!!"` cleans to empty text yet still sets entry 0, and only entry 0 |
| `Preprocess.TwoWordInput` | script.js:102-114 | A punctuation mark, a capital, two spaces and a small letter clean into two one-letter tokens, the capital lowered, and set two slots |
| `Preprocess.PreprocessText` | script.js:99-121 | The array the method fills step by step is exactly `InputVector(text)` |
| `Predictions.MathMax` | script.js:125 | `Math.max` is the larger argument: at least both, and equal to one of them |
| `Predictions.MathMin` | script.js:125 | `Math.min` is the smaller argument: at most both, and equal to one of them |
| `Predictions.Clamp01` | script.js:125 | The reference clamp lies in [0, 1] and returns its argument when the argument is in range |
| `Predictions.ClampOrdersAgree` | script.js:125-131 | `Math.min(Math.max(p, 0), 1)` and `Math.max(0, Math.min(p, 1))` both equal the reference clamp |
| `Predictions.Clamp01Idempotent` | script.js:125-131 | Clamping a clamped value changes nothing |
| `Predictions.ClampEach` | script.js:128 | The mapped slice has the same length and element i is the clamp of input element i |
| `Predictions.ProcessModelPredictions` | script.js:123-138 | The credibility score is missing (NaN) exactly for an empty vector and otherwise is the clamp of slot 0. The subjects are slots 1..5 clamped, `min(4, max(0, len - 1))` of them. The sentiments are slots 5..8 clamped, `min(3, max(0, len - 5))` of them. Every value is in [0, 1] |
| `Predictions.InRangePredictionsUnchanged` | script.js:123-138 | An 8-slot vector whose values are already in [0, 1] comes back unchanged |
| `Predictions.ProcessModelPredictionsIdempotent` | script.js:123-138 | For any non-empty output vector, post-processing the values of the result again gives the same result |
| `Analyzer.ErrorMessage` | script.js:63-92 | Each rejection has a non-empty message: "Please enter news text to analyze", "Model is not ready. Please wait and try again.", and for a failed analysis "Failed to analyze news. Please try again." |
| `Analyzer.ErrorMessageDistinct` | script.js:63-92 | The three error messages are pairwise different |
| `Analyzer.AnalyzeGate` | script.js:61-71 | Empty trimmed text is rejected as empty whatever the model state. Non-empty text is rejected as "model not ready" exactly when the model is not loaded. Otherwise the trimmed text is accepted |
| `Analyzer.EmptyTextCheckedFirst` | script.js:61-71 | For empty trimmed text the decision does not depend on the model flag |
| `Analyzer.WhitespaceOnlyRejected` | script.js:61-66 | Empty and whitespace-only input is rejected as empty |
| `Analyzer.VisibleTextNotEmpty` | script.js:61-66 | Input with any non-whitespace character is never rejected as empty |
| `Analyzer.AnalyzeButtonDisabled` | script.js:327-329 | The state set on each input event is disabled exactly when every character of the box is whitespace or the model is not loaded |
| `Analyzer.ButtonEnabledIffAccepted` | script.js:327-329 | The state set on each input event is enabled exactly when pressing the button would pass the gate |
| `Analyzer.AnalyzeNews` | script.js:60-97 | A rejection returns the gate's error. Otherwise the result is the processed output of inference on `InputVector(trimmed text)`, or the analysis error when inference fails. Every successful result lies in [0, 1] |

## Left out

- Model loading (`loadModel`: the model and weights fetch, `Float32Array`, `loadWeights`, setting `isModelLoaded`) is remote I/O in a foreign library. The loaded flag is an input of the gate instead.
- Inference (`model.predict(...).data()`), `tf.tensor2d` and `tf.dispose` are foreign library calls. Inference is the parameter `predict` of `AnalyzeNews`; `None` stands for a thrown error caught at script.js:90-92.
- The `catch` in `preprocessText` is not modelled. Only the excluded tensor construction could throw there; the modelled steps are total.
- Chart construction and updates, result display, theme handling with `localStorage`, page navigation, sharing, and toast notifications all drive the DOM or browser APIs. `Analyzer.ErrorMessage` records the three error texts without displaying them.
- The button's "Analyzing..." state and its re-enabling in `finally` (script.js:74-75, 93-95) are UI state around an asynchronous call, and are not modelled.
- The button state that `loadModel` sets is not modelled: script.js:50 enables the button once the model is loaded whatever the box holds, and script.js:56 disables it when loading fails. Until the next input event the button can therefore be enabled with an empty box; the empty-text check then rejects the press. `ButtonEnabledIffAccepted` covers only the state set on input events, at script.js:328.
- `about.js` is static presentational content.
- PreprocessText: JavaScript strings may hold lone surrogates, which a Dafny `string` cannot. Text with lone surrogates is outside the model.
- ProcessModelPredictions: treats the prediction values as reals. NaN elements and Float32 rounding are not modelled. Only the NaN that a missing slot 0 produces is modelled.
- The `toFixed(1)` percentage display is float-to-string formatting.
- Slice: negative bounds are not modelled; the script only slices with the non-negative constants 0, 1, 5, 8 and 100.

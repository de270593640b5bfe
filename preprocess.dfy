/**
 * `preprocessText`: cleans the article text and turns it into the model's
 * input, a vector of `MaxLength` slots where slot i is 1 when the cleaned text
 * has more than i space-separated tokens and 0 otherwise.
 */
module Preprocess {
  import opened JsString

  /** Size of the model's input vector. */
  const MaxLength: nat := 100

  // ---------------------------------------------------------------------------
  // Text cleaning
  // ---------------------------------------------------------------------------

  /** The characters a cleaned text can hold: `[a-z0-9_]` and the space. */
  predicate IsCleanChar(c: char)
  {
    IsAsciiLower(c) || IsDigit(c) || c == '_' || c == ' '
  }

  /** Shape of a cleaned text: clean characters, no space at either end, never two spaces in a row. */
  predicate IsCleaned(t: string)
  {
    && (forall c | c in t :: IsCleanChar(c))
    && (t != [] ==> t[0] != ' ' && t[|t| - 1] != ' ')
    && NoDoubleSpace(t)
  }

  /**
   * Lower-case, drop everything that is not `\w` or `\s`, collapse whitespace
   * runs, trim. The result has only `[a-z0-9_]` and single inner spaces, none
   * at the ends.
   */
  function CleanText(text: string): (r: string)
    ensures IsCleaned(r)
  {
    CleaningStepsShape(text);
    Trim(CollapseWhitespace(RemoveNonWordNonSpace(ToLowerCase(text))))
  }

  lemma CleaningStepsShape(text: string)
    ensures IsCleaned(Trim(CollapseWhitespace(RemoveNonWordNonSpace(ToLowerCase(text)))))
  {
    var lowered := ToLowerCase(text);
    var kept := RemoveNonWordNonSpace(lowered);
    assert forall c | c in kept :: IsKept(c) && !IsAsciiUpper(c);
    var collapsed := CollapseWhitespace(kept);
    CollapseWhitespaceChars(kept);
    forall c | c in collapsed
      ensures IsCleanChar(c)
    {
      if c != ' ' {
        assert c in kept && !IsWhitespace(c);
      }
    }
    var lo, hi := TrimIsSlice(collapsed);
    var t := Trim(collapsed);
    assert t == collapsed[lo..hi];
    assert forall c | c in t :: c in collapsed;
    forall i, j | 0 <= i < |t| && 0 <= j < |t| && j == i + 1
      ensures t[i] != ' ' || t[j] != ' '
    {
      assert t[i] == collapsed[lo + i] && t[j] == collapsed[lo + j];
    }
  }

  /** A text of the cleaned shape passes through every cleaning step unchanged. */
  lemma CleanedIsFixedPoint(t: string)
    requires IsCleaned(t)
    ensures CleanText(t) == t
  {
    ToLowerCaseIdentity(t);
    RemoveNonWordNonSpaceIdentity(t);
    CollapseWhitespaceIdentity(t);
    TrimIdentity(t);
  }

  /** Cleaning is idempotent. */
  lemma CleanTextIdempotent(text: string)
    ensures CleanText(CleanText(text)) == CleanText(text)
  {
    CleanedIsFixedPoint(CleanText(text));
  }

  /** The cleaned texts are exactly the fixed points of cleaning. */
  lemma CleanedIffFixedPoint(t: string)
    ensures IsCleaned(t) <==> CleanText(t) == t
  {
    if IsCleaned(t) {
      CleanedIsFixedPoint(t);
    }
  }

  /**
   * Cleaning loses no word character: after lower-casing and deleting
   * punctuation, the characters other than whitespace are exactly those of
   * the cleaned text, in the same order.
   */
  lemma CleanTextKeepsWords(text: string)
    ensures NonWhitespace(CleanText(text)) == NonWhitespace(RemoveNonWordNonSpace(ToLowerCase(text)))
  {
    var kept := RemoveNonWordNonSpace(ToLowerCase(text));
    CollapseWhitespaceKeepsText(kept);
    TrimKeepsText(CollapseWhitespace(kept));
  }

  // ---------------------------------------------------------------------------
  // Tokens
  // ---------------------------------------------------------------------------

  /**
   * In a text without double spaces that does not end with a space, every
   * piece after the first is non-empty, and the first is empty only when the
   * text is empty or starts with a space.
   */
  lemma {:induction false} SplitPiecesNonEmpty(s: string)
    requires NoDoubleSpace(s)
    requires s != [] ==> s[|s| - 1] != ' '
    ensures forall k | 1 <= k < |Split(s)| :: Split(s)[k] != []
    ensures Split(s)[0] == [] <==> s == [] || s[0] == ' '
  {
    if s != [] {
      var tail := s[1..];
      assert NoDoubleSpace(tail) by {
        forall i, j | 0 <= i < |tail| && 0 <= j < |tail| && j == i + 1
          ensures tail[i] != ' ' || tail[j] != ' '
        {
          assert tail[i] == s[i + 1] && tail[j] == s[j + 1];
        }
      }
      assert tail != [] ==> tail[|tail| - 1] == s[|s| - 1];
      SplitPiecesNonEmpty(tail);
      var rest := Split(tail);
      if s[0] == ' ' {
        assert |s| > 1 && s[1] != ' ';
        assert Split(s) == [[]] + rest;
      } else {
        assert Split(s) == [[s[0]] + rest[0]] + rest[1..];
      }
    }
  }

  /** The tokens of a non-empty cleaned text are non-empty words over `[a-z0-9_]`. */
  lemma CleanTokensAreWords(text: string)
    ensures CleanText(text) != [] ==>
      forall w | w in Split(CleanText(text)) ::
        w != [] && forall c | c in w :: IsCleanChar(c) && c != ' '
  {
    var t := CleanText(text);
    SplitPiecesNonEmpty(t);
    var words := Split(t);
    JoinSplit(t);
    forall w | w in words
      ensures forall c | c in w :: c in t
    {
      JoinHasPieces(words, w);
    }
  }

  /**
   * The tokens of the cleaned text are the words of the lower-cased text with
   * punctuation deleted, in order; text without any word gives one empty token.
   */
  lemma CleanTextTokens(text: string)
    ensures var words := Words(RemoveNonWordNonSpace(ToLowerCase(text)));
      Split(CleanText(text)) == if words == [] then [[]] else words
  {
    SplitCollapsedIsWords(RemoveNonWordNonSpace(ToLowerCase(text)));
  }

  /** Every piece of a join appears in it. */
  lemma {:induction false} JoinHasPieces(ws: seq<string>, w: string)
    requires w in ws
    ensures forall c | c in w :: c in Join(ws)
  {
    if |ws| > 1 {
      if w != ws[0] {
        assert w in ws[1..];
        JoinHasPieces(ws[1..], w);
      }
    }
  }

  // ---------------------------------------------------------------------------
  // The input vector
  // ---------------------------------------------------------------------------

  /** `n` ones followed by `len - n` zeros. */
  function Indicator(n: nat, len: nat): seq<int>
  {
    seq(len, i => if i < n then 1 else 0)
  }

  lemma {:induction false} IndicatorCount(n: nat, len: nat)
    requires n <= len
    ensures Count(Indicator(n, len), 1) == n
    ensures Count(Indicator(n, len), 0) == len - n
  {
    if len > 0 {
      var m := if n == len then n - 1 else n;
      IndicatorCount(m, len - 1);
      assert Indicator(n, len) == Indicator(m, len - 1) + [if n == len then 1 else 0];
      CountAppend(Indicator(m, len - 1), [if n == len then 1 else 0], 1);
      CountAppend(Indicator(m, len - 1), [if n == len then 1 else 0], 0);
    }
  }

  /** The input vector that `preprocessText` builds for `text`. */
  function InputVector(text: string): (v: seq<int>)
    ensures |v| == MaxLength
    ensures forall i | 0 <= i < |v| :: v[i] == 0 || v[i] == 1
    ensures v[0] == 1
  {
    Indicator(Min(|Split(CleanText(text))|, MaxLength), MaxLength)
  }

  /** The ones form a prefix: a 1 is never preceded by a 0. */
  lemma InputVectorOnesFirst(text: string, i: nat, j: nat)
    requires i <= j < MaxLength
    requires InputVector(text)[j] == 1
    ensures InputVector(text)[i] == 1
  {
  }

  /**
   * The vector holds one 1 per token of the cleaned text, at most `MaxLength`,
   * and zeros elsewhere. The tokens are the words of the lower-cased text with
   * punctuation deleted, counted as one when there is none.
   */
  lemma InputVectorCountsTokens(text: string)
    ensures Count(InputVector(text), 1) == Min(Count(CleanText(text), ' ') + 1, MaxLength)
    ensures Count(InputVector(text), 0) == MaxLength - Min(Count(CleanText(text), ' ') + 1, MaxLength)
    ensures Count(InputVector(text), 1)
         == Min(Max(1, |Words(RemoveNonWordNonSpace(ToLowerCase(text)))|), MaxLength)
  {
    IndicatorCount(Min(|Split(CleanText(text))|, MaxLength), MaxLength);
    CleanTextTokens(text);
  }

  /** A text that cleans to nothing, such as punctuation only, still sets slot 0 and only slot 0. */
  lemma PunctuationOnlyInput()
    ensures CleanText("!!!") == []
    ensures InputVector("!!!")[0] == 1
    ensures forall i | 1 <= i < MaxLength :: InputVector("!!!")[i] == 0
  {
    assert ToLowerCase("!!!") == "!!!";
    assert RemoveNonWordNonSpace("!!!") == [];
  }

  /**
   * Lower-casing, deleting punctuation and collapsing work together: a
   * punctuation mark, a capital, two spaces and a small letter give two
   * one-letter tokens, the capital lowered, and so two ones in the vector.
   */
  lemma TwoWordInput(p: char, x: char, y: char)
    requires !IsKept(p) && p != '\U{0130}' && p != '\U{212A}'
    requires IsAsciiUpper(x) && IsAsciiLower(y)
    ensures Split(CleanText([p, x, ' ', ' ', y])) == [[(x as int + 32) as char], [y]]
    ensures Count(InputVector([p, x, ' ', ' ', y]), 1) == 2
  {
    var s := [p, x, ' ', ' ', y];
    var lx := (x as int + 32) as char;
    TwoWordWords(p, x, y);
    CleanTextTokens(s);
    InputVectorCountsTokens(s);
  }

  lemma TwoWordWords(p: char, x: char, y: char)
    requires !IsKept(p) && p != '\U{0130}' && p != '\U{212A}'
    requires IsAsciiUpper(x) && IsAsciiLower(y)
    ensures Words(RemoveNonWordNonSpace(ToLowerCase([p, x, ' ', ' ', y])))
         == [[(x as int + 32) as char], [y]]
  {
    var lx := (x as int + 32) as char;
    var t := [lx, ' ', ' ', y];
    var low := ToLowerCase([p, x, ' ', ' ', y]);
    TwoWordLowered(p, x, y);
    assert low == [p] + t;
    assert IsAsciiLower(lx);
    RemoveLeadingPunctuation(p, t);
    var kept := RemoveNonWordNonSpace(low);
    assert kept == t;
    DoubleSpaceWords(lx, y);
    assert Words(kept) == Words(t);
  }

  lemma TwoWordLowered(p: char, x: char, y: char)
    requires !IsKept(p) && p != '\U{0130}' && p != '\U{212A}'
    requires IsAsciiUpper(x) && IsAsciiLower(y)
    ensures ToLowerCase([p, x, ' ', ' ', y]) == [p, (x as int + 32) as char, ' ', ' ', y]
  {
    ToLowerCasePointwise([p, x, ' ', ' ', y]);
  }

  /**
   * `preprocessText` without the tensor wrapper: clean the text step by step,
   * split it on spaces, and mark one slot per token (at most `MaxLength`) in a
   * zero-filled array.
   */
  method PreprocessText(text: string) returns (vector: seq<int>)
    ensures vector == InputVector(text)
  {
    var cleaned := ToLowerCase(text);
    cleaned := RemoveNonWordNonSpace(cleaned);
    cleaned := Trim(CollapseWhitespace(cleaned));
    var words := Split(cleaned);
    var inputVector := new int[MaxLength](_ => 0);
    var firstWords := Slice(words, 0, MaxLength);
    var index := 0;
    while index < |firstWords|
      invariant 0 <= index <= |firstWords| <= MaxLength
      invariant forall k | 0 <= k < MaxLength :: inputVector[k] == if k < index then 1 else 0
    {
      inputVector[index] := 1;
      index := index + 1;
    }
    vector := inputVector[..];
    assert |firstWords| == Min(|words|, MaxLength);
  }
}

/**
 * The JavaScript string and array built-ins that the analyzer's text handling
 * relies on, written as functions over `string` (a sequence of Unicode scalar
 * values) and over sequences:
 *   - `String.prototype.toLowerCase`
 *   - `replace(/[^\w\s]/g, '')` and `replace(/\s+/g, ' ')` (regular expressions
 *     without the `u` flag)
 *   - `String.prototype.trim`
 *   - `String.prototype.split(' ')` and its inverse `join(' ')`
 *   - `slice(start, end)` with non-negative bounds
 */
module JsString {

  function Min(a: int, b: int): int { if a <= b then a else b }

  function Max(a: int, b: int): int { if a <= b then b else a }

  /** Number of occurrences of `x` in `s`. */
  function Count<T(==)>(s: seq<T>, x: T): nat
  {
    if s == [] then 0 else (if s[0] == x then 1 else 0) + Count(s[1..], x)
  }

  lemma {:induction false} CountAppend<T>(a: seq<T>, b: seq<T>, x: T)
    ensures Count(a + b, x) == Count(a, x) + Count(b, x)
  {
    if a == [] {
      assert a + b == b;
    } else {
      assert (a + b)[1..] == a[1..] + b;
      CountAppend(a[1..], b, x);
    }
  }

  // ---------------------------------------------------------------------------
  // Character classes
  // ---------------------------------------------------------------------------

  predicate IsAsciiUpper(c: char) { 'A' <= c <= 'Z' }

  predicate IsAsciiLower(c: char) { 'a' <= c <= 'z' }

  predicate IsDigit(c: char) { '0' <= c <= '9' }

  /** `\w` in a regular expression without the `u` flag: `[A-Za-z0-9_]`. */
  predicate IsWordChar(c: char)
  {
    IsAsciiUpper(c) || IsAsciiLower(c) || IsDigit(c) || c == '_'
  }

  /**
   * `\s`, which is also the set that `trim` removes: the ECMAScript WhiteSpace
   * and LineTerminator code points (tab, line feed, vertical tab, form feed,
   * carriage return, space, no-break space, the byte order mark, the
   * space separators of Unicode and the line and paragraph separators).
   */
  predicate IsWhitespace(c: char)
  {
    c == '\t' || c == '\n' || c == '\U{000B}' || c == '\U{000C}' || c == '\r' || c == ' '
    || c == '\U{00A0}' || c == '\U{1680}' || ('\U{2000}' <= c <= '\U{200A}')
    || c == '\U{2028}' || c == '\U{2029}' || c == '\U{202F}' || c == '\U{205F}'
    || c == '\U{3000}' || c == '\U{FEFF}'
  }

  // ---------------------------------------------------------------------------
  // toLowerCase
  // ---------------------------------------------------------------------------

  /**
   * Lower-case form of one character. It is exact on ASCII and on the two
   * non-ASCII characters whose lower-case form contains an ASCII letter
   * (LATIN CAPITAL LETTER I WITH DOT ABOVE and KELVIN SIGN); every other
   * character is left as it is.
   */
  function LowerChar(c: char): (r: string)
    ensures forall d | d in r :: !IsAsciiUpper(d)
    ensures IsAsciiUpper(c) ==>
      |r| == 1 && IsAsciiLower(r[0]) && r[0] as int - 'a' as int == c as int - 'A' as int
    ensures !IsAsciiUpper(c) && c != '\U{0130}' && c != '\U{212A}' ==> r == [c]
  {
    if IsAsciiUpper(c) then [(c as int + 32) as char]
    else if c == '\U{0130}' then ['i', '\U{0307}']
    else if c == '\U{212A}' then ['k']
    else [c]
  }

  /** `String.prototype.toLowerCase`, one character at a time. */
  function ToLowerCase(s: string): (r: string)
    ensures forall c | c in r :: !IsAsciiUpper(c)
  {
    if s == [] then [] else LowerChar(s[0]) + ToLowerCase(s[1..])
  }

  /** Lower-casing works character by character: it distributes over concatenation. */
  lemma {:induction false} ToLowerCaseAppend(a: string, b: string)
    ensures ToLowerCase(a + b) == ToLowerCase(a) + ToLowerCase(b)
  {
    if a == [] {
      assert a + b == b;
    } else {
      assert (a + b)[1..] == a[1..] + b;
      ToLowerCaseAppend(a[1..], b);
    }
  }

  /**
   * Without LATIN CAPITAL LETTER I WITH DOT ABOVE, lower-casing keeps the
   * length, turns each ASCII capital into the same letter in lower case, the
   * Kelvin sign into `k`, and leaves every other character in place.
   */
  lemma {:induction false} ToLowerCasePointwise(s: string)
    requires forall c | c in s :: c != '\U{0130}'
    ensures |ToLowerCase(s)| == |s|
    ensures forall i | 0 <= i < |s| ::
      ToLowerCase(s)[i] ==
        if IsAsciiUpper(s[i]) then (s[i] as int + 32) as char
        else if s[i] == '\U{212A}' then 'k'
        else s[i]
  {
    if s != [] {
      assert s[0] in s;
      assert forall c | c in s[1..] :: c in s;
      ToLowerCasePointwise(s[1..]);
      var r := ToLowerCase(s);
      assert r == LowerChar(s[0]) + ToLowerCase(s[1..]);
      forall i | 1 <= i < |s|
        ensures r[i] == ToLowerCase(s[1..])[i - 1]
      {
      }
    }
  }

  /** A string with neither ASCII capitals nor the two special capitals is its own lower-case form. */
  lemma {:induction false} ToLowerCaseIdentity(s: string)
    requires forall c | c in s :: !IsAsciiUpper(c) && c != '\U{0130}' && c != '\U{212A}'
    ensures ToLowerCase(s) == s
  {
    if s != [] {
      assert s[0] in s;
      assert forall c | c in s[1..] :: c in s;
      ToLowerCaseIdentity(s[1..]);
    }
  }

  // ---------------------------------------------------------------------------
  // replace(/[^\w\s]/g, '')
  // ---------------------------------------------------------------------------

  predicate IsKept(c: char) { IsWordChar(c) || IsWhitespace(c) }

  /** Deletes every character that is neither a word character nor whitespace. */
  function RemoveNonWordNonSpace(s: string): (r: string)
    ensures |r| <= |s|
    ensures forall c | c in r :: IsKept(c) && c in s
  {
    if s == [] then []
    else if IsKept(s[0]) then [s[0]] + RemoveNonWordNonSpace(s[1..])
    else RemoveNonWordNonSpace(s[1..])
  }

  /** Every kept character survives with all its occurrences; every other one disappears. */
  lemma {:induction false} RemoveNonWordNonSpaceCount(s: string, c: char)
    ensures Count(RemoveNonWordNonSpace(s), c) == if IsKept(c) then Count(s, c) else 0
  {
    if s != [] {
      RemoveNonWordNonSpaceCount(s[1..], c);
      if IsKept(s[0]) {
        assert ([s[0]] + RemoveNonWordNonSpace(s[1..]))[1..] == RemoveNonWordNonSpace(s[1..]);
      }
    }
  }

  /** The filter works character by character: it distributes over concatenation, so order is kept. */
  lemma {:induction false} RemoveNonWordNonSpaceAppend(a: string, b: string)
    ensures RemoveNonWordNonSpace(a + b) == RemoveNonWordNonSpace(a) + RemoveNonWordNonSpace(b)
  {
    if a == [] {
      assert a + b == b;
    } else {
      assert (a + b)[1..] == a[1..] + b;
      RemoveNonWordNonSpaceAppend(a[1..], b);
    }
  }

  /** A string made only of word characters and whitespace is left unchanged. */
  lemma {:induction false} RemoveNonWordNonSpaceIdentity(s: string)
    requires forall c | c in s :: IsKept(c)
    ensures RemoveNonWordNonSpace(s) == s
  {
    if s != [] {
      assert s[0] in s;
      assert forall c | c in s[1..] :: c in s;
      RemoveNonWordNonSpaceIdentity(s[1..]);
    }
  }

  // ---------------------------------------------------------------------------
  // trim
  // ---------------------------------------------------------------------------

  /** Removes leading whitespace. */
  function TrimStart(s: string): (r: string)
    ensures |r| <= |s|
  {
    if s != [] && IsWhitespace(s[0]) then TrimStart(s[1..]) else s
  }

  /** What TrimStart removes is all whitespace; what it keeps is a suffix that does not start with whitespace. */
  lemma {:induction false} TrimStartSpec(s: string)
    ensures TrimStart(s) == s[|s| - |TrimStart(s)|..]
    ensures TrimStart(s) != [] ==> !IsWhitespace(TrimStart(s)[0])
    ensures forall i | 0 <= i < |s| - |TrimStart(s)| :: IsWhitespace(s[i])
  {
    if s != [] && IsWhitespace(s[0]) {
      TrimStartSpec(s[1..]);
      assert s[1..][|s| - 1 - |TrimStart(s)|..] == s[|s| - |TrimStart(s)|..];
      forall i | 0 < i < |s| - |TrimStart(s)|
        ensures IsWhitespace(s[i])
      {
        assert s[i] == s[1..][i - 1];
      }
    }
  }

  /** Removes trailing whitespace. */
  function TrimEnd(s: string): (r: string)
    ensures |r| <= |s|
  {
    if s != [] && IsWhitespace(s[|s| - 1]) then TrimEnd(s[..|s| - 1]) else s
  }

  /** What TrimEnd removes is all whitespace; what it keeps is a prefix that does not end with whitespace. */
  lemma {:induction false} TrimEndSpec(s: string)
    ensures TrimEnd(s) == s[..|TrimEnd(s)|]
    ensures TrimEnd(s) != [] ==> !IsWhitespace(TrimEnd(s)[|TrimEnd(s)| - 1])
    ensures forall i | |TrimEnd(s)| <= i < |s| :: IsWhitespace(s[i])
  {
    if s != [] && IsWhitespace(s[|s| - 1]) {
      var p := s[..|s| - 1];
      TrimEndSpec(p);
      assert p[..|TrimEnd(s)|] == s[..|TrimEnd(s)|];
      forall i | |TrimEnd(s)| <= i < |s| - 1
        ensures IsWhitespace(s[i])
      {
        assert s[i] == p[i];
      }
    }
  }

  /** `String.prototype.trim`: the result neither starts nor ends with whitespace. */
  function Trim(s: string): (r: string)
    ensures |r| <= |s|
    ensures r != [] ==> !IsWhitespace(r[0]) && !IsWhitespace(r[|r| - 1])
  {
    TrimStartSpec(s);
    TrimEndSpec(TrimStart(s));
    assert TrimEnd(TrimStart(s)) != [] ==> TrimEnd(TrimStart(s))[0] == TrimStart(s)[0];
    TrimEnd(TrimStart(s))
  }

  /**
   * Trim cuts out one contiguous piece of its input that neither starts nor
   * ends with whitespace, and everything around that piece is whitespace.
   */
  lemma TrimIsSlice(s: string) returns (lo: nat, hi: nat)
    ensures lo <= hi <= |s| && Trim(s) == s[lo..hi]
    ensures Trim(s) != [] ==> !IsWhitespace(s[lo]) && !IsWhitespace(s[hi - 1])
    ensures forall i | 0 <= i < lo :: IsWhitespace(s[i])
    ensures forall i | hi <= i < |s| :: IsWhitespace(s[i])
  {
    var t := TrimStart(s);
    var u := TrimEnd(t);
    TrimStartSpec(s);
    TrimEndSpec(t);
    lo := |s| - |t|;
    hi := lo + |u|;
    assert t == s[lo..];
    assert u == t[..|u|];
    forall i | hi <= i < |s|
      ensures IsWhitespace(s[i])
    {
      assert s[i] == t[i - lo];
    }
    if u != [] {
      assert TrimStart(u) == u;
      assert s[lo] == t[0] == u[0];
      assert s[hi - 1] == u[|u| - 1];
    }
  }

  /** A string that neither starts nor ends with whitespace is its own trim. */
  lemma TrimIdentity(s: string)
    requires s != [] ==> !IsWhitespace(s[0]) && !IsWhitespace(s[|s| - 1])
    ensures Trim(s) == s
  {
  }

  /** The trim of a string is empty exactly when the string is all whitespace. */
  lemma TrimEmptyIff(s: string)
    ensures Trim(s) == [] <==> forall i | 0 <= i < |s| :: IsWhitespace(s[i])
  {
    var lo, hi := TrimIsSlice(s);
    if Trim(s) != [] {
      assert !IsWhitespace(s[lo]);
    }
  }

  // ---------------------------------------------------------------------------
  // replace(/\s+/g, ' ')
  // ---------------------------------------------------------------------------

  /** No two adjacent spaces. */
  predicate NoDoubleSpace(s: string)
  {
    forall i, j | 0 <= i < |s| && 0 <= j < |s| && j == i + 1 :: s[i] != ' ' || s[j] != ' '
  }

  lemma NoDoubleSpaceCons(c: char, s: string)
    requires NoDoubleSpace(s)
    requires c != ' ' || s == [] || s[0] != ' '
    ensures NoDoubleSpace([c] + s)
  {
  }

  /** Replaces every maximal run of whitespace by a single space. */
  function CollapseWhitespace(s: string): (r: string)
    ensures |r| <= |s|
    ensures s != [] && !IsWhitespace(s[0]) ==> r != [] && r[0] == s[0]
    ensures NoDoubleSpace(r)
    decreases |s|
  {
    if s == [] then []
    else if IsWhitespace(s[0]) then
      var rest := TrimStart(s[1..]);
      TrimStartSpec(s[1..]);
      NoDoubleSpaceCons(' ', CollapseWhitespace(rest));
      [' '] + CollapseWhitespace(rest)
    else
      NoDoubleSpaceCons(s[0], CollapseWhitespace(s[1..]));
      [s[0]] + CollapseWhitespace(s[1..])
  }

  /** The only whitespace left by the collapse is the space; every other character comes from the input. */
  lemma {:induction false} CollapseWhitespaceChars(s: string)
    ensures forall c | c in CollapseWhitespace(s) :: c == ' ' || (c in s && !IsWhitespace(c))
    decreases |s|
  {
    if s != [] {
      if IsWhitespace(s[0]) {
        var rest := TrimStart(s[1..]);
        CollapseWhitespaceChars(rest);
        assert forall c | c in rest :: c in s by {
          TrimStartSpec(s[1..]);
          assert rest == s[1..][|s| - 1 - |rest|..];
        }
      } else {
        CollapseWhitespaceChars(s[1..]);
      }
    }
  }

  /**
   * A string whose only whitespace is single spaces is left unchanged by the
   * collapse.
   */
  lemma {:induction false} CollapseWhitespaceIdentity(s: string)
    requires forall c | c in s :: c == ' ' || !IsWhitespace(c)
    requires NoDoubleSpace(s)
    ensures CollapseWhitespace(s) == s
  {
    if s != [] {
      var tail := s[1..];
      assert s == [s[0]] + tail;
      assert forall c | c in tail :: c in s;
      assert NoDoubleSpace(tail) by {
        forall i, j | 0 <= i < |tail| && 0 <= j < |tail| && j == i + 1
          ensures tail[i] != ' ' || tail[j] != ' '
        {
          assert tail[i] == s[i + 1] && tail[j] == s[j + 1];
        }
      }
      CollapseWhitespaceIdentity(tail);
      if IsWhitespace(s[0]) {
        assert s[0] in s;
        if tail != [] {
          assert tail[0] == s[1] && s[1] in s;
          assert s[0] == ' ' && s[1] != ' ';
          assert !IsWhitespace(tail[0]);
        }
        assert TrimStart(tail) == tail;
        assert CollapseWhitespace(s) == [' '] + CollapseWhitespace(tail);
      } else {
        assert CollapseWhitespace(s) == [s[0]] + CollapseWhitespace(tail);
      }
    }
  }

  /** The characters of `s` that are not whitespace, in order. */
  function NonWhitespace(s: string): (r: string)
    ensures forall c | c in r :: c in s && !IsWhitespace(c)
  {
    if s == [] then []
    else if IsWhitespace(s[0]) then NonWhitespace(s[1..])
    else [s[0]] + NonWhitespace(s[1..])
  }

  lemma {:induction false} NonWhitespaceTrimStart(s: string)
    ensures NonWhitespace(TrimStart(s)) == NonWhitespace(s)
  {
    if s != [] && IsWhitespace(s[0]) {
      NonWhitespaceTrimStart(s[1..]);
    }
  }

  lemma {:induction false} NonWhitespaceAppend(a: string, b: string)
    ensures NonWhitespace(a + b) == NonWhitespace(a) + NonWhitespace(b)
  {
    if a == [] {
      assert a + b == b;
    } else {
      assert (a + b)[1..] == a[1..] + b;
      NonWhitespaceAppend(a[1..], b);
    }
  }

  lemma {:induction false} NonWhitespaceTrimEnd(s: string)
    ensures NonWhitespace(TrimEnd(s)) == NonWhitespace(s)
  {
    if s != [] && IsWhitespace(s[|s| - 1]) {
      var p := s[..|s| - 1];
      NonWhitespaceTrimEnd(p);
      assert s == p + [s[|s| - 1]];
      NonWhitespaceAppend(p, [s[|s| - 1]]);
      assert NonWhitespace([s[|s| - 1]]) == [];
    }
  }

  /** Trimming removes only whitespace: the other characters stay, in order. */
  lemma TrimKeepsText(s: string)
    ensures NonWhitespace(Trim(s)) == NonWhitespace(s)
  {
    NonWhitespaceTrimStart(s);
    NonWhitespaceTrimEnd(TrimStart(s));
  }

  /** Collapsing whitespace changes only whitespace: the other characters stay, in order. */
  lemma {:induction false} CollapseWhitespaceKeepsText(s: string)
    ensures NonWhitespace(CollapseWhitespace(s)) == NonWhitespace(s)
    decreases |s|
  {
    if s != [] {
      if IsWhitespace(s[0]) {
        var rest := TrimStart(s[1..]);
        CollapseWhitespaceKeepsText(rest);
        NonWhitespaceTrimStart(s[1..]);
        assert ([' '] + CollapseWhitespace(rest))[1..] == CollapseWhitespace(rest);
      } else {
        CollapseWhitespaceKeepsText(s[1..]);
        assert ([s[0]] + CollapseWhitespace(s[1..]))[1..] == CollapseWhitespace(s[1..]);
      }
    }
  }

  // ---------------------------------------------------------------------------
  // split(' ') and join(' ')
  // ---------------------------------------------------------------------------

  /** `String.prototype.split(' ')`: the pieces between the spaces, the empty string giving one empty piece. */
  function Split(s: string): (r: seq<string>)
    ensures |r| == Count(s, ' ') + 1
    ensures forall w | w in r :: ' ' !in w
  {
    if s == [] then [[]]
    else
      var rest := Split(s[1..]);
      if s[0] == ' ' then [[]] + rest
      else
        assert rest[0] in rest;
        assert forall w | w in rest[1..] :: w in rest;
        [[s[0]] + rest[0]] + rest[1..]
  }

  /** `Array.prototype.join(' ')`. */
  function Join(ws: seq<string>): string
  {
    if ws == [] then []
    else if |ws| == 1 then ws[0]
    else ws[0] + " " + Join(ws[1..])
  }

  /** Joining the pieces with spaces gives back the split string. */
  lemma {:induction false} JoinSplit(s: string)
    ensures Join(Split(s)) == s
  {
    if s != [] {
      JoinSplit(s[1..]);
      var rest := Split(s[1..]);
      if s[0] == ' ' {
        assert Join([[]] + rest) == [] + " " + Join(rest);
      } else if |rest| == 1 {
        assert Join(Split(s)) == [s[0]] + rest[0];
      } else {
        var ws := [[s[0]] + rest[0]] + rest[1..];
        assert ws[1..] == rest[1..];
        assert Join(ws) == ([s[0]] + rest[0]) + " " + Join(rest[1..]);
        assert Join(rest) == rest[0] + " " + Join(rest[1..]);
      }
    }
  }

  /** Splitting a space-free piece followed by more text. */
  lemma {:induction false} SplitPrefix(w: string, t: string)
    requires ' ' !in w
    ensures Split(w + t) == [w + Split(t)[0]] + Split(t)[1..]
  {
    var st := Split(t);
    if w == [] {
      assert w + t == t && w + st[0] == st[0];
      assert st == [st[0]] + st[1..];
    } else {
      var wt := w + t;
      assert w[0] in w;
      assert wt[0] == w[0] && wt[0] != ' ';
      assert wt[1..] == w[1..] + t;
      SplitPrefix(w[1..], t);
      var rest := Split(wt[1..]);
      assert Split(wt) == [[wt[0]] + rest[0]] + rest[1..];
      assert rest[0] == w[1..] + st[0] && rest[1..] == st[1..];
      assert [w[0]] + (w[1..] + st[0]) == w + st[0];
    }
  }

  /** Splitting the join of space-free pieces gives back the pieces. */
  lemma {:induction false} SplitJoin(ws: seq<string>)
    requires |ws| >= 1
    requires forall w | w in ws :: ' ' !in w
    ensures Split(Join(ws)) == ws
  {
    assert ws[0] in ws;
    if |ws| == 1 {
      SplitPrefix(ws[0], []);
      assert ws[0] + [] == ws[0];
    } else {
      assert forall w | w in ws[1..] :: w in ws;
      SplitJoin(ws[1..]);
      var t := " " + Join(ws[1..]);
      assert t[1..] == Join(ws[1..]);
      assert ws[0] + " " + Join(ws[1..]) == ws[0] + t;
      SplitPrefix(ws[0], t);
      assert ws[0] + [] == ws[0];
      assert ws == [ws[0]] + ws[1..];
    }
  }

  // ---------------------------------------------------------------------------
  // Words: the maximal runs of characters other than whitespace
  // ---------------------------------------------------------------------------

  /** The longest prefix of `s` that holds no whitespace. */
  function LeadingWord(s: string): (r: string)
    ensures |r| <= |s|
    ensures s != [] && !IsWhitespace(s[0]) ==> r != []
    ensures forall c | c in r :: !IsWhitespace(c)
  {
    if s == [] || IsWhitespace(s[0]) then [] else [s[0]] + LeadingWord(s[1..])
  }

  /** The leading word is a prefix, and what follows it is empty or starts with whitespace. */
  lemma {:induction false} LeadingWordSpec(s: string)
    ensures s == LeadingWord(s) + s[|LeadingWord(s)|..]
    ensures |LeadingWord(s)| < |s| ==> IsWhitespace(s[|LeadingWord(s)|])
  {
    if s != [] && !IsWhitespace(s[0]) {
      LeadingWordSpec(s[1..]);
      assert s[1..][|LeadingWord(s[1..])|..] == s[|LeadingWord(s)|..];
    }
  }

  /** The words of `s`, left to right: its maximal runs of characters that are not whitespace. */
  function Words(s: string): (r: seq<string>)
    ensures forall w | w in r :: w != [] && forall c | c in w :: !IsWhitespace(c)
    decreases |s|
  {
    if s == [] then []
    else if IsWhitespace(s[0]) then Words(s[1..])
    else
      var w := LeadingWord(s);
      [w] + Words(s[|w|..])
  }

  /** A string has no words exactly when it is all whitespace. */
  lemma {:induction false} WordsEmptyIff(s: string)
    ensures Words(s) == [] <==> forall i | 0 <= i < |s| :: IsWhitespace(s[i])
  {
    if s != [] && IsWhitespace(s[0]) {
      WordsEmptyIff(s[1..]);
      assert forall i | 1 <= i < |s| :: s[i] == s[1..][i - 1];
    }
  }

  lemma {:induction false} WordsTrimStart(s: string)
    ensures Words(TrimStart(s)) == Words(s)
  {
    if s != [] && IsWhitespace(s[0]) {
      WordsTrimStart(s[1..]);
    }
  }

  /** The collapse copies a leading run without whitespace unchanged. */
  lemma {:induction false} CollapseWhitespaceWordPrefix(w: string, t: string)
    requires forall c | c in w :: !IsWhitespace(c)
    ensures CollapseWhitespace(w + t) == w + CollapseWhitespace(t)
  {
    if w == [] {
      assert w + t == t;
    } else {
      assert w[0] in w;
      assert forall c | c in w[1..] :: c in w;
      assert (w + t)[1..] == w[1..] + t;
      CollapseWhitespaceWordPrefix(w[1..], t);
      assert w == [w[0]] + w[1..];
    }
  }

  /** Trailing trim only looks at the end: a prefix is kept when the rest does not trim away. */
  lemma {:induction false} TrimEndAppend(a: string, b: string)
    requires TrimEnd(b) != []
    ensures TrimEnd(a + b) == a + TrimEnd(b)
    decreases |b|
  {
    var ab := a + b;
    if IsWhitespace(b[|b| - 1]) {
      var p := b[..|b| - 1];
      assert ab[..|ab| - 1] == a + p;
      TrimEndAppend(a, p);
    }
  }

  /** A string starting with something other than whitespace does not trim to nothing at the end. */
  lemma TrimEndKeepsStart(s: string)
    requires s != [] && !IsWhitespace(s[0])
    ensures TrimEnd(s) != [] && TrimEnd(s)[0] == s[0]
  {
    TrimEndSpec(s);
  }

  /**
   * Collapsing whitespace runs and trimming leaves exactly the words of the
   * input, joined by single spaces.
   */
  lemma {:induction false} CollapseTrimIsJoinedWords(s: string)
    ensures Trim(CollapseWhitespace(s)) == Join(Words(s))
    decreases |s|
  {
    if s == [] {
    } else if IsWhitespace(s[0]) {
      var rest := TrimStart(s[1..]);
      CollapseTrimIsJoinedWords(rest);
      WordsTrimStart(s[1..]);
      var x := CollapseWhitespace(rest);
      assert ([' '] + x)[1..] == x;
      assert TrimStart([' '] + x) == TrimStart(x);
    } else {
      var w := LeadingWord(s);
      var rest := s[|w|..];
      LeadingWordSpec(s);
      CollapseWhitespaceWordPrefix(w, rest);
      assert w[0] == s[0] && w[|w| - 1] in w;
      assert Words(s) == [w] + Words(rest);
      if rest == [] {
        assert w + [] == w;
        TrimIdentity(w);
        assert Words(rest) == [];
      } else {
        var r := TrimStart(rest[1..]);
        assert Words(rest) == Words(rest[1..]);
        WordsTrimStart(rest[1..]);
        var x := CollapseWhitespace(r);
        assert CollapseWhitespace(rest) == [' '] + x;
        assert CollapseWhitespace(s) == (w + " ") + x;
        TrimStartSpec(rest[1..]);
        if r == [] {
          assert Words(r) == [];
          assert x == [];
          var ws := w + " ";
          assert ws[..|ws| - 1] == w;
          assert TrimEnd(ws) == TrimEnd(w) == w;
          assert (w + " ") + [] == ws;
        } else {
          CollapseTrimIsJoinedWords(r);
          assert x[0] == r[0];
          TrimEndKeepsStart(x);
          assert TrimStart(x) == x;
          TrimEndAppend(w + " ", x);
          assert Words(r) == [LeadingWord(r)] + Words(r[|LeadingWord(r)|..]);
          var ws := [w] + Words(r);
          assert ws[1..] == Words(r);
        }
      }
    }
  }

  /**
   * `split(' ')` after collapsing and trimming yields the words of the input,
   * or one empty piece when the input is all whitespace.
   */
  lemma SplitCollapsedIsWords(s: string)
    ensures Split(Trim(CollapseWhitespace(s))) == if Words(s) == [] then [[]] else Words(s)
  {
    CollapseTrimIsJoinedWords(s);
    var ws := Words(s);
    if ws != [] {
      forall w | w in ws
        ensures ' ' !in w
      {
      }
      SplitJoin(ws);
    }
  }

  /** Deleting a leading character that is neither a word character nor whitespace leaves the rest as it is. */
  lemma RemoveLeadingPunctuation(p: char, t: string)
    requires !IsKept(p)
    requires forall c | c in t :: IsKept(c)
    ensures RemoveNonWordNonSpace([p] + t) == t
  {
    RemoveNonWordNonSpaceAppend([p], t);
    RemoveNonWordNonSpaceIdentity(t);
  }

  /** Two characters that are not whitespace, separated by two spaces, are two words. */
  lemma DoubleSpaceWords(x: char, y: char)
    requires !IsWhitespace(x) && !IsWhitespace(y)
    ensures Words([x, ' ', ' ', y]) == [[x], [y]]
  {
    var t := [x, ' ', ' ', y];
    assert t[1..] == [' ', ' ', y] && t[1..][1..] == [' ', y] && t[1..][1..][1..] == [y];
    assert [y][1..] == [];
    assert LeadingWord([y]) == [y];
    assert Words([y]) == [[y]] + Words([]);
    assert Words([' ', y]) == Words([y]);
    assert Words([' ', ' ', y]) == Words([' ', y]);
    assert LeadingWord(t) == [x];
    assert t[|[x]|..] == [' ', ' ', y];
  }

  // ---------------------------------------------------------------------------
  // slice
  // ---------------------------------------------------------------------------

  /** `slice(start, end)` for non-negative bounds: both are clamped to the length, an empty range gives `[]`. */
  function Slice<T>(s: seq<T>, start: nat, end: nat): (r: seq<T>)
    ensures |r| == Max(0, Min(end, |s|) - Min(start, |s|))
    ensures forall i | 0 <= i < |r| :: start + i < |s| && r[i] == s[start + i]
  {
    var lo := Min(start, |s|);
    var hi := Min(end, |s|);
    if lo < hi then s[lo..hi] else []
  }
}

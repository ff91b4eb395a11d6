/**
 * `censorText` of the add-fault dialog
 * (src/app/dashboard/components/add-fault-dialog.tsx): every forbidden word
 * that stands as a whole word in the description is overwritten with as many
 * `*` as it has characters.
 *
 * The source builds the pattern `\b(w1|w2|...)\b` with the flags `g` and `i`
 * and replaces each match. The model spells out how a JavaScript engine runs
 * that pattern: at each position the alternatives are tried in list order,
 * and the first one that fits between two word boundaries is taken (letters
 * compared after lower-casing both sides); the scan moves left to right and
 * resumes after each match. An empty match replaces nothing and the scan
 * moves on by one character. Because what matches at a position depends only
 * on the text and the position, the scan is stated over the table of match
 * lengths, one per position.
 */
module Censor {
  import opened Wrappers
  import opened Text

  /** Which characters count as word characters when `\b` is decided. */
  datatype WordClass =
    | AsciiWord     // `\w` without the `u` flag: `[A-Za-z0-9_]`, the class the source's pattern uses
    | LatinLetters  // `\w` together with the Latin-1 and Latin Extended-A letters

  predicate IsWordChar(cls: WordClass, c: char)
  {
    IsAsciiWordChar(c) || (cls == LatinLetters && IsLetter(c))
  }

  /** Lower-casing never turns a word character into a non-word character or back. */
  lemma LowerKeepsWordChar(cls: WordClass, c: char)
    ensures IsWordChar(cls, LowerChar(c)) == IsWordChar(cls, c)
  {
  }

  /** `\b` at position `i`: exactly one of the characters on either side is a word character. */
  predicate AtBoundary(cls: WordClass, text: string, i: nat)
    requires i <= |text|
  {
    (0 < i && IsWordChar(cls, text[i - 1])) != (i < |text| && IsWordChar(cls, text[i]))
  }

  /** `a` and `b` agree once each character is lower-cased: the comparison of the `i` flag. */
  predicate SameUpToCase(a: string, b: string)
  {
    |a| == |b| && forall j :: 0 <= j < |a| ==> LowerChar(a[j]) == LowerChar(b[j])
  }

  /** The character-wise comparison is the comparison of the lower-cased strings. */
  lemma SameUpToCaseIsLowerEquality(a: string, b: string)
    ensures SameUpToCase(a, b) <==> Lower(a) == Lower(b)
  {
    if Lower(a) == Lower(b) {
      forall j | 0 <= j < |a|
        ensures LowerChar(a[j]) == LowerChar(b[j])
      {
        assert Lower(a)[j] == Lower(b)[j];
      }
    }
  }

  /** The alternative `word` matches at `i`: it fits, equals the text there up to case, and has a boundary on each side. */
  predicate MatchesAt(cls: WordClass, word: string, text: string, i: nat)
    requires i <= |text|
  {
    && i + |word| <= |text|
    && AtBoundary(cls, text, i)
    && SameUpToCase(text[i..i + |word|], word)
    && AtBoundary(cls, text, i + |word|)
  }

  /** The index of the alternative the engine takes at `i`: the first one in list order that matches. */
  function FirstMatch(cls: WordClass, words: seq<string>, text: string, i: nat): (r: Option<nat>)
    requires i <= |text|
    ensures r.Some? ==> r.value < |words|
  {
    if words == [] then None
    else if MatchesAt(cls, words[0], text, i) then Some(0)
    else match FirstMatch(cls, words[1..], text, i)
      case None => None
      case Some(k) => Some(k + 1)
  }

  /** `FirstMatch` finds a match exactly when some alternative matches, and no earlier alternative does. */
  lemma {:induction false} FirstMatchIsFirst(cls: WordClass, words: seq<string>, text: string, i: nat)
    requires i <= |text|
    ensures FirstMatch(cls, words, text, i).None? ==> forall k :: 0 <= k < |words| ==> !MatchesAt(cls, words[k], text, i)
    ensures FirstMatch(cls, words, text, i).Some? ==> MatchesAt(cls, words[FirstMatch(cls, words, text, i).value], text, i)
    ensures FirstMatch(cls, words, text, i).Some? ==>
              forall k :: 0 <= k < FirstMatch(cls, words, text, i).value ==> !MatchesAt(cls, words[k], text, i)
  {
    if words != [] && !MatchesAt(cls, words[0], text, i) {
      FirstMatchIsFirst(cls, words[1..], text, i);
      assert forall k :: 1 <= k < |words| ==> words[k] == words[1..][k - 1];
    }
  }

  /** `'*'.repeat(n)`. */
  function Stars(n: nat): (r: string)
    ensures |r| == n && forall j :: 0 <= j < n ==> r[j] == '*'
  {
    seq(n, _ => '*')
  }

  /** The length of the text the engine replaces at `i`: the first matching alternative's, or 0. */
  function MatchLength(cls: WordClass, words: seq<string>, text: string, i: nat): (n: nat)
    requires i <= |text|
    ensures i + n <= |text|
  {
    FirstMatchIsFirst(cls, words, text, i);
    match FirstMatch(cls, words, text, i)
    case None => 0
    case Some(k) => |words[k]|
  }

  /** What the engine finds at `i`: a matching alternative as long as the match, or none that is non-empty. */
  lemma MatchLengthFacts(cls: WordClass, words: seq<string>, text: string, i: nat) returns (k: nat)
    requires i <= |text|
    ensures MatchLength(cls, words, text, i) > 0 ==>
              k < |words| && MatchesAt(cls, words[k], text, i) && |words[k]| == MatchLength(cls, words, text, i)
    ensures MatchLength(cls, words, text, i) == 0 && AllWordsOf(cls, words) ==>
              forall l :: 0 <= l < |words| ==> !MatchesAt(cls, words[l], text, i)
  {
    FirstMatchIsFirst(cls, words, text, i);
    k := if FirstMatch(cls, words, text, i).Some? then FirstMatch(cls, words, text, i).value else 0;
  }

  /** `word` is non-empty and made of word characters only. */
  predicate WordOf(cls: WordClass, word: string)
  {
    |word| > 0 && forall j :: 0 <= j < |word| ==> IsWordChar(cls, word[j])
  }

  /** Every alternative is non-empty and made of word characters only. */
  predicate AllWordsOf(cls: WordClass, words: seq<string>)
  {
    forall k :: 0 <= k < |words| ==> WordOf(cls, words[k])
  }

  /**
   * No alternative is empty. An empty alternative matches at every boundary,
   * and where it comes first in the list it wins there with a match that
   * replaces nothing.
   */
  predicate NoEmptyWords(words: seq<string>)
  {
    forall k :: 0 <= k < |words| ==> |words[k]| > 0
  }

  /** A table of match lengths, one per position of `text`, each match ending inside the text. */
  predicate FitsIn(lens: seq<nat>, text: string)
  {
    |lens| == |text| && forall p :: 0 <= p < |lens| ==> p + lens[p] <= |text|
  }

  /** The match lengths of every position of `text`. */
  function MatchLengths(cls: WordClass, words: seq<string>, text: string): (lens: seq<nat>)
    ensures FitsIn(lens, text)
  {
    seq(|text|, p requires 0 <= p < |text| => MatchLength(cls, words, text, p))
  }

  /** The output of the scan from position `i` on: each match becomes stars, every other character stays. */
  function Scan(lens: seq<nat>, text: string, i: nat): (r: string)
    requires FitsIn(lens, text) && i <= |text|
    ensures |r| == |text| - i
    decreases |text| - i
  {
    if i == |text| then []
    else if lens[i] > 0 then Stars(lens[i]) + Scan(lens, text, i + lens[i])
    else [text[i]] + Scan(lens, text, i + 1)
  }

  /** How far the scan moves from `i`: over the match, or one character when there is none. */
  function Step(lens: seq<nat>, i: nat): (s: nat)
    requires i < |lens|
    ensures s > 0
  {
    if lens[i] > 0 then lens[i] else 1
  }

  /** One character of the scan's output: inside the step from `i` it is `*` or the text; past it, the rest of the scan. */
  lemma ScanAt(lens: seq<nat>, text: string, i: nat, j: nat)
    requires FitsIn(lens, text) && i <= j < |text|
    ensures lens[i] > 0 && j < i + lens[i] ==> Scan(lens, text, i)[j - i] == '*'
    ensures lens[i] == 0 && j == i ==> Scan(lens, text, i)[0] == text[i]
    ensures i + Step(lens, i) <= j ==>
              Scan(lens, text, i)[j - i] == Scan(lens, text, i + Step(lens, i))[j - i - Step(lens, i)]
  {
    var s := Scan(lens, text, i);
    if lens[i] > 0 {
      var rest := Scan(lens, text, i + lens[i]);
      assert s == Stars(lens[i]) + rest;
      if j < i + lens[i] {
        assert s[j - i] == Stars(lens[i])[j - i];
      } else {
        assert s[j - i] == rest[j - i - lens[i]];
      }
    } else {
      var rest := Scan(lens, text, i + 1);
      assert s == [text[i]] + rest;
      if j > i {
        assert s[j - i] == rest[j - i - 1];
      }
    }
  }

  /** `r` is `s` with some characters overwritten by `*`. */
  predicate Masks(r: string, s: string)
  {
    |r| == |s| && forall j :: 0 <= j < |r| ==> r[j] == s[j] || r[j] == '*'
  }

  /** The scan only ever writes `*` over the text. */
  lemma {:induction false} ScanMasks(lens: seq<nat>, text: string, i: nat)
    requires FitsIn(lens, text) && i <= |text|
    ensures Masks(Scan(lens, text, i), text[i..])
    decreases |text| - i
  {
    if i < |text| {
      var step := Step(lens, i);
      ScanMasks(lens, text, i + step);
      var r, rest := Scan(lens, text, i), Scan(lens, text, i + step);
      forall d | 0 <= d < |text| - i
        ensures r[d] == text[i + d] || r[d] == '*'
      {
        ScanAt(lens, text, i, i + d);
        if step <= d {
          assert text[i + step..][d - step] == text[i + d];
        }
      }
    }
  }

  /** With no match left from `i` on, the scan copies the rest of the text. */
  lemma {:induction false} ScanCopies(lens: seq<nat>, text: string, i: nat)
    requires FitsIn(lens, text) && i <= |text|
    requires forall p :: i <= p < |text| ==> lens[p] == 0
    ensures Scan(lens, text, i) == text[i..]
    decreases |text| - i
  {
    if i < |text| {
      ScanCopies(lens, text, i + 1);
      assert text[i..] == [text[i]] + text[i + 1..];
    }
  }

  /** A character the scan from `i` changed lies under a match the scan took, at or after `i`. */
  lemma {:induction false} ScanSource(lens: seq<nat>, text: string, i: nat, j: nat) returns (p: nat)
    requires FitsIn(lens, text) && i <= j < |text| && Scan(lens, text, i)[j - i] != text[j]
    ensures i <= p <= j < p + lens[p]
    decreases |text| - i
  {
    ScanAt(lens, text, i, j);
    if j < i + Step(lens, i) {
      p := i;
    } else {
      p := ScanSource(lens, text, i + Step(lens, i), j);
    }
  }

  /**
   * The stretch of `n` characters from `i` comes out as stars when a match
   * at `i` covers it and every earlier match ends before it or covers it to
   * its end: either the scan lands on `i`, or a match it takes swallows the
   * whole stretch.
   */
  lemma {:induction false} ScanCovers(lens: seq<nat>, text: string, p: nat, i: nat, n: nat)
    requires FitsIn(lens, text) && p <= i && i + n <= |text| && 0 < n <= lens[i]
    requires forall q :: p <= q < i && lens[q] > 0 ==> q + lens[q] <= i || i + n <= q + lens[q]
    ensures forall j :: i - p <= j < i - p + n ==> Scan(lens, text, p)[j] == '*'
    decreases i - p
  {
    if p < i && !(lens[p] > 0 && i + n <= p + lens[p]) {
      ScanCovers(lens, text, p + Step(lens, p), i, n);
    }
    forall j | i - p <= j < i - p + n
      ensures Scan(lens, text, p)[j] == '*'
    {
      ScanAt(lens, text, p, p + j);
    }
  }

  /**
   * `censorText` with the word boundaries of `cls`: the text with some
   * characters overwritten by `*`. The source's own function is
   * `CensorText(AsciiWord, ...)`; an empty list leaves the text alone.
   */
  function CensorText(cls: WordClass, words: seq<string>, text: string): (r: string)
    ensures Masks(r, text)
    ensures words == [] ==> r == text
  {
    if words == [] then text
    else
      var lens := MatchLengths(cls, words, text);
      ScanMasks(lens, text, 0);
      assert text[0..] == text;
      Scan(lens, text, 0)
  }

  /** A text in which no alternative matches anywhere comes back unchanged. */
  lemma NoMatchKeepsText(cls: WordClass, words: seq<string>, text: string)
    requires forall i, k :: 0 <= i <= |text| && 0 <= k < |words| ==> !MatchesAt(cls, words[k], text, i)
    ensures CensorText(cls, words, text) == text
  {
    if words != [] {
      var lens := MatchLengths(cls, words, text);
      forall p | 0 <= p < |text|
        ensures lens[p] == 0
      {
        FirstMatchIsFirst(cls, words, text, p);
      }
      ScanCopies(lens, text, 0);
    }
  }

  /** Every character the censor overwrites lies inside a match of some alternative. */
  lemma StarsOnlyOverMatches(cls: WordClass, words: seq<string>, text: string, j: nat)
    requires j < |text| && CensorText(cls, words, text)[j] != text[j]
    ensures CensorText(cls, words, text)[j] == '*'
    ensures exists p, k :: 0 <= p <= j && 0 <= k < |words|
                           && MatchesAt(cls, words[k], text, p) && j < p + |words[k]|
  {
    assert words != [];
    var lens := MatchLengths(cls, words, text);
    assert CensorText(cls, words, text) == Scan(lens, text, 0);
    var p := ScanSource(lens, text, 0, j);
    var k := MatchLengthFacts(cls, words, text, p);
  }

  /** The text under a match of a word made of word characters is made of word characters. */
  lemma {:induction false} MatchedTextIsWordChars(cls: WordClass, word: string, text: string, i: nat)
    requires i <= |text| && MatchesAt(cls, word, text, i)
    requires forall j :: 0 <= j < |word| ==> IsWordChar(cls, word[j])
    ensures forall j :: i <= j < i + |word| ==> IsWordChar(cls, text[j])
  {
    forall j | i <= j < i + |word|
      ensures IsWordChar(cls, text[j])
    {
      assert LowerChar(text[i..i + |word|][j - i]) == LowerChar(word[j - i]);
      LowerKeepsWordChar(cls, text[j]);
      LowerKeepsWordChar(cls, word[j - i]);
    }
  }

  /**
   * When every alternative is made of word characters, two matches never
   * overlap without starting together, and two matches that start together
   * have the same length.
   */
  lemma MatchesDoNotStraddle(cls: WordClass, words: seq<string>, text: string, p: nat, k: nat, i: nat, l: nat)
    requires AllWordsOf(cls, words) && k < |words| && l < |words|
    requires p <= i <= |text| && MatchesAt(cls, words[k], text, p) && MatchesAt(cls, words[l], text, i)
    ensures p < i ==> p + |words[k]| <= i
    ensures p == i ==> |words[k]| == |words[l]|
  {
    MatchedTextIsWordChars(cls, words[k], text, p);
    MatchedTextIsWordChars(cls, words[l], text, i);
  }

  /**
   * A match never ends strictly inside a run of word characters: its end is
   * a boundary, and there is none between two word characters.
   */
  lemma MatchEndsOutsideRun(cls: WordClass, words: seq<string>, text: string, i: nat, n: nat, q: nat)
    requires q <= i && i + n <= |text|
    requires forall j :: i <= j < i + n ==> IsWordChar(cls, text[j])
    requires MatchLength(cls, words, text, q) > 0
    ensures q + MatchLength(cls, words, text, q) <= i || i + n <= q + MatchLength(cls, words, text, q)
  {
    var k := MatchLengthFacts(cls, words, text, q);
    assert AtBoundary(cls, text, q + |words[k]|);
  }

  /**
   * Whole words are censored whole: a match of an alternative made of word
   * characters comes out as stars over its full length, whatever the other
   * alternatives are, as long as none of them is empty.
   */
  lemma WholeWordCensored(cls: WordClass, words: seq<string>, text: string, l: nat, i: nat)
    requires l < |words| && WordOf(cls, words[l]) && NoEmptyWords(words)
    requires i <= |text| && MatchesAt(cls, words[l], text, i)
    ensures forall j :: i <= j < i + |words[l]| ==> CensorText(cls, words, text)[j] == '*'
  {
    var n := |words[l]|;
    var lens := MatchLengths(cls, words, text);
    assert CensorText(cls, words, text) == Scan(lens, text, 0);
    MatchedTextIsWordChars(cls, words[l], text, i);
    FirstMatchIsFirst(cls, words, text, i);
    forall q | 0 <= q <= i && lens[q] > 0
      ensures q + lens[q] <= i || i + n <= q + lens[q]
    {
      MatchEndsOutsideRun(cls, words, text, i, n, q);
    }
    ScanCovers(lens, text, 0, i, n);
  }

  /**
   * With the source's ASCII `\b`, a forbidden word that begins with a
   * Lithuanian letter is left alone when it stands as a word of its own,
   * although it is a whole word once letters count as word characters.
   */
  lemma LithuanianWordMissedAsWritten()
    ensures MatchesAt(LatinLetters, "žodis", "žodis", 0)
    ensures CensorText(AsciiWord, ["žodis"], "žodis") == "žodis"
  {
    var w := "žodis";
    forall i, k | 0 <= i <= |w| && 0 <= k < 1
      ensures !MatchesAt(AsciiWord, [w][k], w, i)
    {
      if i == 0 {
        assert !IsWordChar(AsciiWord, w[0]);
      }
    }
    NoMatchKeepsText(AsciiWord, [w], w);
  }

  /** With the source's ASCII `\b`, the same word glued to the end of another word is censored. */
  lemma LithuanianWordGluedCensoredAsWritten()
    ensures !MatchesAt(LatinLetters, "žodis", "xžodis", 1)
    ensures CensorText(AsciiWord, ["žodis"], "xžodis") == "x*****"
  {
    var w, t := "žodis", "xžodis";
    var lens := MatchLengths(AsciiWord, [w], t);
    assert !MatchesAt(AsciiWord, w, t, 0) by {
      assert t[0] != LowerChar(w[0]);
    }
    assert MatchesAt(AsciiWord, w, t, 1) by {
      assert t[1..6] == w;
    }
    assert lens[0] == 0 && lens[1] == 5;
    assert Scan(lens, t, 1) == Stars(5) + Scan(lens, t, 6);
    assert Scan(lens, t, 0) == [t[0]] + Scan(lens, t, 1);
  }

  /** With letters as word characters, the word standing alone is censored whole. */
  lemma LithuanianWordCensoredCorrected()
    ensures CensorText(LatinLetters, ["žodis"], "žodis") == "*****"
  {
    var w := "žodis";
    assert WordOf(LatinLetters, w);
    assert MatchesAt(LatinLetters, w, w, 0) by {
      assert w[0..5] == w;
    }
    WholeWordCensored(LatinLetters, [w], w, 0, 0);
  }
}

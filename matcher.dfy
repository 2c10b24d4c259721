/**
 * `find_pattern_in_text`: the leftmost, greedy match of `MT_PM_[\w_]+` in the text
 * recognised from an image (`re.search` with REGEX_PATTERN).
 *
 * Python 3's `\w` on a `str` pattern is Unicode-aware, so the word-character class is
 * a parameter `isWordChar` of the matcher rather than a fixed ASCII test. Every property
 * below holds for any class; the worked examples assume only what Python guarantees on
 * ASCII (IsPythonWordClass). `[\w_]` is `\w`, since `_` is already a word character.
 */
module PatternMatcher {
  import opened Wrappers

  /** The literal that opens every identifier. */
  const Prefix: string := "MT_PM_"

  /** Python's `\w` restricted to ASCII: letters, digits and the underscore. */
  predicate IsAsciiWordChar(c: char) {
    ('a' <= c <= 'z') || ('A' <= c <= 'Z') || ('0' <= c <= '9') || c == '_'
  }

  /** A character class that, on ASCII, is exactly Python 3's `\w`. */
  ghost predicate IsPythonWordClass(isWordChar: char -> bool) {
    forall c: char :: (c as int) < 128 ==> (isWordChar(c) <==> IsAsciiWordChar(c))
  }

  predicate AllWordChars(isWordChar: char -> bool, s: string) {
    forall k :: 0 <= k < |s| ==> isWordChar(s[k])
  }

  /** The regex can start a match at index `i`: the prefix, then at least one word character. */
  predicate MatchesAt(isWordChar: char -> bool, text: string, i: int) {
    0 <= i && i + |Prefix| < |text| && text[i..i + |Prefix|] == Prefix && isWordChar(text[i + |Prefix|])
  }

  /**
   * The declarative reading of `re.search`: `text[s..e]` is the match that starts at the
   * leftmost index where a match can start, and runs greedily to the end of the word run.
   */
  ghost predicate IsLeftmostLongest(isWordChar: char -> bool, text: string, s: int, e: int) {
    && MatchesAt(isWordChar, text, s)
    && (forall k :: 0 <= k < s ==> !MatchesAt(isWordChar, text, k))
    && s + |Prefix| < e <= |text|
    && AllWordChars(isWordChar, text[s + |Prefix|..e])
    && (e == |text| || !isWordChar(text[e]))
  }

  /** The end of the run of word characters that starts at `j` (the greedy `+`). */
  function RunEnd(isWordChar: char -> bool, text: string, j: nat): (e: nat)
    requires j <= |text|
    ensures j <= e <= |text|
    ensures AllWordChars(isWordChar, text[j..e])
    ensures e == |text| || !isWordChar(text[e])
    decreases |text| - j
  {
    if j == |text| || !isWordChar(text[j]) then j
    else
      var e := RunEnd(isWordChar, text, j + 1);
      assert forall k :: 0 < k < e - j ==> text[j..e][k] == text[j + 1..e][k - 1];
      e
  }

  /** The first index at or after `i` where a match can start, trying each start in turn. */
  function SearchFrom(isWordChar: char -> bool, text: string, i: nat): (r: Option<nat>)
    ensures r.None? ==> forall k :: i <= k ==> !MatchesAt(isWordChar, text, k)
    ensures r.Some? ==> i <= r.value && MatchesAt(isWordChar, text, r.value)
    ensures r.Some? ==> forall k :: i <= k < r.value ==> !MatchesAt(isWordChar, text, k)
    decreases |text| - i
  {
    if i + |Prefix| >= |text| then None
    else if MatchesAt(isWordChar, text, i) then Some(i)
    else SearchFrom(isWordChar, text, i + 1)
  }

  /**
   * `find_pattern_in_text`: None exactly when no index starts a match; otherwise the
   * leftmost-longest match, which begins with the prefix and continues with word characters.
   */
  function FindPatternInText(isWordChar: char -> bool, text: string): (r: Option<string>)
    ensures r.None? <==> forall i :: 0 <= i < |text| ==> !MatchesAt(isWordChar, text, i)
    ensures r.Some? ==> exists s, e :: IsLeftmostLongest(isWordChar, text, s, e) && r.value == text[s..e]
    ensures r.Some? ==> |Prefix| < |r.value| && r.value[..|Prefix|] == Prefix
    ensures r.Some? ==> AllWordChars(isWordChar, r.value[|Prefix|..])
  {
    match SearchFrom(isWordChar, text, 0)
    case None => None
    case Some(s) =>
      var e := RunEnd(isWordChar, text, s + |Prefix|);
      assert IsLeftmostLongest(isWordChar, text, s, e);
      assert text[s..e][..|Prefix|] == text[s..s + |Prefix|];
      assert text[s..e][|Prefix|..] == text[s + |Prefix|..e];
      Some(text[s..e])
  }

  /** The declarative description pins down one span: there is at most one leftmost-longest match. */
  lemma LeftmostLongestUnique(isWordChar: char -> bool, text: string, s: int, e: int, s': int, e': int)
    requires IsLeftmostLongest(isWordChar, text, s, e)
    requires IsLeftmostLongest(isWordChar, text, s', e')
    ensures s == s' && e == e'
  {
    assert forall k :: s + |Prefix| <= k < e ==> isWordChar(text[k]) by {
      forall k | s + |Prefix| <= k < e ensures isWordChar(text[k]) {
        assert text[s + |Prefix|..e][k - s - |Prefix|] == text[k];
      }
    }
    assert forall k :: s' + |Prefix| <= k < e' ==> isWordChar(text[k]) by {
      forall k | s' + |Prefix| <= k < e' ensures isWordChar(text[k]) {
        assert text[s' + |Prefix|..e'][k - s' - |Prefix|] == text[k];
      }
    }
  }

  /** Whatever span satisfies the declarative description is exactly what the matcher returns. */
  lemma FindReturnsLeftmostLongest(isWordChar: char -> bool, text: string, s: int, e: int)
    requires IsLeftmostLongest(isWordChar, text, s, e)
    ensures FindPatternInText(isWordChar, text) == Some(text[s..e])
  {
    var r := FindPatternInText(isWordChar, text);
    assert r.Some? by {
      assert MatchesAt(isWordChar, text, s);
    }
    var s', e' :| IsLeftmostLongest(isWordChar, text, s', e') && r.value == text[s'..e'];
    LeftmostLongestUnique(isWordChar, text, s, e, s', e');
  }

  /** With Python's word class a found code never contains a line break. */
  lemma FoundCodeHasNoNewline(isWordChar: char -> bool, text: string)
    requires IsPythonWordClass(isWordChar)
    requires FindPatternInText(isWordChar, text).Some?
    ensures '\n' !in FindPatternInText(isWordChar, text).value
  {
    var code := FindPatternInText(isWordChar, text).value;
    assert !isWordChar('\n');
    forall k | 0 <= k < |code|
      ensures code[k] != '\n'
    {
      if k < |Prefix| {
        assert code[k] == code[..|Prefix|][k] == Prefix[k];
      } else {
        assert code[k] == code[|Prefix|..][k - |Prefix|];
      }
    }
  }

  /** No match can start where the text has no `M`. */
  lemma NoMatchWhereNoM(isWordChar: char -> bool, text: string, lo: int, hi: int)
    requires forall k :: lo <= k < hi && 0 <= k < |text| ==> text[k] != 'M'
    ensures forall k :: lo <= k < hi ==> !MatchesAt(isWordChar, text, k)
  {
    forall k | lo <= k < hi
      ensures !MatchesAt(isWordChar, text, k)
    {
      if 0 <= k && k + |Prefix| < |text| {
        assert text[k..k + |Prefix|][0] == text[k];
      }
    }
  }

  /** A text without any underscore contains no code. */
  lemma NoMatchWithoutUnderscore(isWordChar: char -> bool, text: string)
    requires '_' !in text
    ensures FindPatternInText(isWordChar, text) == None
  {
    forall k | 0 <= k < |text|
      ensures !MatchesAt(isWordChar, text, k)
    {
      if k + |Prefix| < |text| {
        assert text[k..k + |Prefix|][2] == text[k + 2];
      }
    }
  }

  /**
   * A code preceded by text without any `M` and followed by a non-word character (or
   * nothing) is exactly what the matcher returns, whatever comes after it.
   */
  lemma FindCodeAfterPlainText(isWordChar: char -> bool, text: string, before: string, code: string, after: string)
    requires IsPythonWordClass(isWordChar)
    requires text == before + code + after
    requires 'M' !in before
    requires |Prefix| < |code| && code[..|Prefix|] == Prefix
    requires forall c :: c in code[|Prefix|..] ==> IsAsciiWordChar(c)
    requires after != [] ==> (after[0] as int) < 128 && !IsAsciiWordChar(after[0])
    ensures FindPatternInText(isWordChar, text) == Some(code)
  {
    var s, e := |before|, |before| + |code|;
    NoMatchWhereNoM(isWordChar, text, 0, s);
    assert text[s..e] == code;
    assert text[s..s + |Prefix|] == code[..|Prefix|];
    assert text[s + |Prefix|..e] == code[|Prefix|..];
    forall k | 0 <= k < |code| - |Prefix|
      ensures isWordChar(code[|Prefix|..][k])
    {
      var c := code[|Prefix|..][k];
      assert c in code[|Prefix|..];
      assert (c as int) < 128;
    }
    assert e < |text| ==> text[e] == after[0];
    assert IsLeftmostLongest(isWordChar, text, s, e);
    FindReturnsLeftmostLongest(isWordChar, text, s, e);
  }

  /** The code is found in the middle of a sentence and stops at the following space. */
  lemma FindCodeInSentence(isWordChar: char -> bool)
    requires IsPythonWordClass(isWordChar)
    ensures FindPatternInText(isWordChar, "Some random text before " + "MT_PM_V1_TEST_CODE" + " and some after.")
         == Some("MT_PM_V1_TEST_CODE")
  {
    var before, code, after := "Some random text before ", "MT_PM_V1_TEST_CODE", " and some after.";
    FindCodeAfterPlainText(isWordChar, before + code + after, before, code, after);
  }

  /** A code at the very start of the text is found. */
  lemma FindCodeAtStart(isWordChar: char -> bool)
    requires IsPythonWordClass(isWordChar)
    ensures FindPatternInText(isWordChar, "MT_PM_START_01" + " is the code.") == Some("MT_PM_START_01")
  {
    var code, after := "MT_PM_START_01", " is the code.";
    assert "" + code + after == code + after;
    FindCodeAfterPlainText(isWordChar, code + after, "", code, after);
  }

  /** Of two codes in one text the first wins. */
  lemma FindFirstOfTwoCodes(isWordChar: char -> bool)
    requires IsPythonWordClass(isWordChar)
    ensures FindPatternInText(isWordChar, "First code is " + "MT_PM_FIRST_A" + " and second is MT_PM_SECOND_B")
         == Some("MT_PM_FIRST_A")
  {
    var before, code, after := "First code is ", "MT_PM_FIRST_A", " and second is MT_PM_SECOND_B";
    FindCodeAfterPlainText(isWordChar, before + code + after, before, code, after);
  }

  /** Spaces instead of underscores: nothing is found. */
  lemma FindNothingWithoutCode(isWordChar: char -> bool)
    ensures FindPatternInText(isWordChar, "This text does not " + "contain the required " + "MT PM format.") == None
  {
    var a, b, c := "This text does not ", "contain the required ", "MT PM format.";
    assert '_' !in a && '_' !in b && '_' !in c;
    NoMatchWithoutUnderscore(isWordChar, a + b + c);
  }
}

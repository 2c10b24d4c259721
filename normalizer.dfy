/**
 * `normalize_pattern`: corrects characters that OCR confuses with digits, but only in
 * the version run of a code shaped `MT_PM_V<run>_<rest>`; anything else is returned
 * unchanged.
 *
 * The source's `re.match(r"(MT_PM_V)([^_]+)(_.*)", pattern)` has two readings here.
 * NormalizePatternAsWritten follows the regex exactly: `.` does not match a line break,
 * so the third group ends at the first `\n` after the underscore and the rebuilt string
 * loses everything from that line break on. NormalizePattern keeps the whole remainder,
 * as the source's comment says ("the rest of the string (from the underscore onwards)").
 * The two agree on every string without a line break. With Python's word class (the
 * matcher's IsPythonWordClass) that includes every code the matcher can return, so under
 * that class the pipeline's behaviour is the same under either reading.
 */
module PatternNormalizer {

  /** The fixed start of a versioned code: group 1 of the regex. */
  const VersionPrefix: string := "MT_PM_V"

  /** `str.maketrans("IiLlOo", "111100")`: letters OCR confuses with digits. */
  function Correct(c: char): (d: char)
    ensures c in "IiLl" ==> d == '1'
    ensures c in "Oo" ==> d == '0'
    ensures c !in "IiLlOo" ==> d == c
  {
    if c in "IiLl" then '1' else if c in "Oo" then '0' else c
  }

  /** Correcting never creates or removes an underscore, and a corrected character stays put. */
  lemma CorrectProperties(c: char)
    ensures Correct(c) == '_' <==> c == '_'
    ensures Correct(Correct(c)) == Correct(c)
    ensures Correct(c) !in "IiLlOo"
  {
  }

  /** `str.translate` with that table. */
  function Translate(v: string): (r: string)
    ensures |r| == |v|
    ensures forall k :: 0 <= k < |v| ==> r[k] == Correct(v[k])
  {
    seq(|v|, k requires 0 <= k < |v| => Correct(v[k]))
  }

  /** The first index at or after `from` holding `c`, or `|s|` if there is none. */
  function IndexFrom(s: string, c: char, from: nat): (r: nat)
    requires from <= |s|
    ensures from <= r <= |s|
    ensures r < |s| ==> s[r] == c
    ensures forall k :: from <= k < r ==> s[k] != c
    decreases |s| - from
  {
    if from == |s| || s[from] == c then from else IndexFrom(s, c, from + 1)
  }

  /** Where the version run ends: the first underscore after the prefix. */
  function VersionEnd(s: string): nat
    requires |VersionPrefix| <= |s|
  {
    IndexFrom(s, '_', |VersionPrefix|)
  }

  /**
   * The regex matches at the start: the prefix, a non-empty run without underscores
   * (`[^_]+`, greedy), then an underscore.
   */
  predicate HasVersionStructure(s: string) {
    |VersionPrefix| < |s| && s[..|VersionPrefix|] == VersionPrefix
    && |VersionPrefix| < VersionEnd(s) < |s|
  }

  /** True where index `k` of `s` lies in the version run of a structured code. */
  predicate InVersionRun(s: string, k: int) {
    HasVersionStructure(s) && |VersionPrefix| <= k < VersionEnd(s)
  }

  /**
   * `normalize_pattern` with the remainder kept whole. An unstructured input comes back
   * unchanged; a structured one keeps its length, its prefix and everything from the
   * underscore on, and only characters of the version run are corrected.
   */
  function NormalizePattern(s: string): (r: string)
    ensures !HasVersionStructure(s) ==> r == s
    ensures |r| == |s|
    ensures forall k :: 0 <= k < |s| ==> r[k] == if InVersionRun(s, k) then Correct(s[k]) else s[k]
  {
    if HasVersionStructure(s) then
      var u := VersionEnd(s);
      s[..|VersionPrefix|] + Translate(s[|VersionPrefix|..u]) + s[u..]
    else
      s
  }

  /**
   * `normalize_pattern` as the regex reads it: the third group `(_.*)` stops before the
   * first line break after the underscore, and the rebuilt string ends there.
   */
  function NormalizePatternAsWritten(s: string): (r: string)
    ensures !HasVersionStructure(s) ==> r == s
    ensures HasVersionStructure(s) ==> r == NormalizePattern(s)[..IndexFrom(s, '\n', VersionEnd(s))]
    ensures |r| <= |s|
    ensures r == NormalizePattern(s)[..|r|]
  {
    if HasVersionStructure(s) then
      var u := VersionEnd(s);
      s[..|VersionPrefix|] + Translate(s[|VersionPrefix|..u]) + s[u..IndexFrom(s, '\n', u)]
    else
      s
  }

  /** Without a line break the regex's third group runs to the end, and the two readings agree. */
  lemma AsWrittenAgreesWithoutNewline(s: string)
    requires '\n' !in s
    ensures NormalizePatternAsWritten(s) == NormalizePattern(s)
  {
    if HasVersionStructure(s) {
      var u := VersionEnd(s);
      var n := IndexFrom(s, '\n', u);
      assert n == |s|;
    }
  }

  /** The regex as written drops the text after a line break in the remainder. */
  lemma AsWrittenTruncatesAtNewline()
    ensures NormalizePatternAsWritten("MT_PM_VI_A\nB") == "MT_PM_V1_A"
    ensures NormalizePattern("MT_PM_VI_A\nB") == "MT_PM_V1_A\nB"
  {
    var s := "MT_PM_VI_A\nB";
    assert s[..7] == VersionPrefix && s[7] == 'I' && s[8] == '_';
    assert VersionEnd(s) == 8;
    assert IndexFrom(s, '\n', 8) == 10;
    assert HasVersionStructure(s);
    assert Translate(s[7..8]) == "1";
  }

  /** A structured code stays structured after normalizing, with its version run in the same place. */
  lemma NormalizeKeepsStructure(s: string)
    requires HasVersionStructure(s)
    ensures HasVersionStructure(NormalizePattern(s))
    ensures VersionEnd(NormalizePattern(s)) == VersionEnd(s)
  {
    var r := NormalizePattern(s);
    var u := VersionEnd(s);
    assert r[..|VersionPrefix|] == s[..|VersionPrefix|];
    forall k | |VersionPrefix| <= k < u
      ensures r[k] != '_'
    {
      CorrectProperties(s[k]);
    }
    assert r[u] == '_';
    assert VersionEnd(r) == u;
  }

  /** Normalizing twice is normalizing once. */
  lemma {:induction false} NormalizeIdempotent(s: string)
    ensures NormalizePattern(NormalizePattern(s)) == NormalizePattern(s)
  {
    var r := NormalizePattern(s);
    if HasVersionStructure(s) {
      NormalizeKeepsStructure(s);
      var r2 := NormalizePattern(r);
      forall k | 0 <= k < |r|
        ensures r2[k] == r[k]
      {
        if InVersionRun(r, k) {
          CorrectProperties(s[k]);
        }
      }
    }
  }

  /** After normalizing, the version run holds none of the confusable letters. */
  lemma NormalizedRunIsClean(s: string, k: int)
    requires InVersionRun(s, k)
    ensures NormalizePattern(s)[k] !in "IiLlOo"
  {
    CorrectProperties(s[k]);
  }

  /** The documented example: `I` in the version run becomes `1`. */
  lemma NormalizeVersionI()
    ensures NormalizePattern("MT_PM_VI_TEST_CODE") == "MT_PM_V1_TEST_CODE"
  {
    var s := "MT_PM_VI_TEST_CODE";
    assert s[..7] == VersionPrefix && s[7] == 'I' && s[8] == '_';
    assert VersionEnd(s) == 8;
    assert Translate(s[7..8]) == "1";
  }

  /** A code without the `V` right after the prefix is left alone. */
  lemma NormalizeLeavesUnversioned(s: string)
    requires |s| > 6 && s[..6] == "MT_PM_" && s[6] != 'V'
    ensures NormalizePattern(s) == s
  {
    assert !HasVersionStructure(s) by {
      if |VersionPrefix| < |s| {
        assert s[..|VersionPrefix|][6] != VersionPrefix[6];
      }
    }
  }

  /** The code of the matcher's second example, `MT_PM_START_01`, is left alone. */
  lemma NormalizeLeavesStartCode()
    ensures NormalizePattern("MT_PM_START_01") == "MT_PM_START_01"
  {
    var s := "MT_PM_START_01";
    assert s[..6] == "MT_PM_" && s[6] == 'S';
    NormalizeLeavesUnversioned(s);
  }

  /** Normalizing as written twice is normalizing as written once. */
  lemma AsWrittenIdempotent(s: string)
    ensures NormalizePatternAsWritten(NormalizePatternAsWritten(s)) == NormalizePatternAsWritten(s)
  {
    var r := NormalizePatternAsWritten(s);
    if HasVersionStructure(s) {
      var u := VersionEnd(s);
      var n := IndexFrom(s, '\n', u);
      assert n > u;
      assert r[..|VersionPrefix|] == VersionPrefix;
      forall k | |VersionPrefix| <= k < u
        ensures r[k] != '_'
      {
        CorrectProperties(s[k]);
      }
      assert r[u] == '_';
      assert VersionEnd(r) == u;
      assert HasVersionStructure(r);
      assert IndexFrom(r, '\n', u) == |r|;
      var r2 := NormalizePatternAsWritten(r);
      forall k | 0 <= k < |r|
        ensures r2[k] == r[k]
      {
        if InVersionRun(r, k) {
          CorrectProperties(s[k]);
        }
      }
    }
  }
}

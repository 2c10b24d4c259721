/**
 * `get_unique_destination_path`: the first of `name+ext`, `name_1+ext`, `name_2+ext`, ...
 * under the output directory that does not exist yet.
 *
 * The probe loop has no bound of its own. It stops because the candidates are pairwise
 * distinct paths and only finitely many paths exist, so at most `|existing|` of them can
 * be taken: the resolver probes at most `|existing| + 1` candidates.
 */
module DestinationResolver {
  import opened Paths
  import opened Storage

  /** The decimal digit for `d`. */
  function DigitChar(d: nat): (c: char)
    requires d < 10
    ensures '0' <= c <= '9' && c as int - '0' as int == d
  {
    ('0' as int + d) as char
  }

  /** `str(n)` for a non-negative integer: decimal, no leading zeros. */
  function DecimalString(n: nat): (r: string)
    ensures 1 <= |r|
    ensures forall k :: 0 <= k < |r| ==> '0' <= r[k] <= '9'
    ensures |r| > 1 ==> r[0] != '0'
    decreases n
  {
    if n < 10 then [DigitChar(n)] else DecimalString(n / 10) + [DigitChar(n % 10)]
  }

  /** The value of a string of decimal digits. */
  function DecimalValue(s: string): nat
    requires forall k :: 0 <= k < |s| ==> '0' <= s[k] <= '9'
  {
    if s == [] then 0 else DecimalValue(s[..|s| - 1]) * 10 + (s[|s| - 1] as int - '0' as int)
  }

  /** Reading back a counter's decimal form gives the counter. */
  lemma {:induction false} DecimalRoundTrip(n: nat)
    ensures DecimalValue(DecimalString(n)) == n
  {
    if n >= 10 {
      var s := DecimalString(n);
      assert s[..|s| - 1] == DecimalString(n / 10);
      DecimalRoundTrip(n / 10);
    }
  }

  /** Distinct counters have distinct decimal forms. */
  lemma DecimalStringInjective(a: nat, b: nat)
    requires DecimalString(a) == DecimalString(b)
    ensures a == b
  {
    DecimalRoundTrip(a);
    DecimalRoundTrip(b);
  }

  /** The file name probed at step `k`: `name+ext` first, then `name_k+ext`. */
  function CandidateName(name: string, ext: string, k: nat): (r: string)
    ensures k == 0 ==> r == name + ext
    ensures k > 0 ==> |r| > |name| + |ext|
  {
    if k == 0 then name + ext else name + "_" + DecimalString(k) + ext
  }

  /** Every probed name starts with the code and ends with the extension. */
  lemma CandidateNameShape(name: string, ext: string, k: nat)
    ensures var r := CandidateName(name, ext, k);
            |name| + |ext| <= |r| && r[..|name|] == name && r[|r| - |ext|..] == ext
  {
  }

  /** The path probed at step `k`. */
  function Candidate(dir: string, name: string, ext: string, k: nat): (p: string)
    ensures |p| >= |CandidateName(name, ext, k)|
  {
    Join(dir, CandidateName(name, ext, k))
  }

  lemma CandidateNamesDistinct(name: string, ext: string, j: nat, k: nat)
    requires j < k
    ensures CandidateName(name, ext, j) != CandidateName(name, ext, k)
  {
    if j > 0 && CandidateName(name, ext, j) == CandidateName(name, ext, k) {
      var a, b := CandidateName(name, ext, j), CandidateName(name, ext, k);
      var dj, dk := DecimalString(j), DecimalString(k);
      assert |dj| == |dk|;
      assert a[|name| + 1..|name| + 1 + |dj|] == dj;
      assert b[|name| + 1..|name| + 1 + |dk|] == dk;
      DecimalStringInjective(j, k);
    }
  }

  /** No two probes hit the same path. */
  lemma CandidatesDistinct(dir: string, name: string, ext: string, j: nat, k: nat)
    requires j != k
    ensures Candidate(dir, name, ext, j) != Candidate(dir, name, ext, k)
  {
    var lo, hi := if j < k then j else k, if j < k then k else j;
    var a, b := CandidateName(name, ext, lo), CandidateName(name, ext, hi);
    CandidateNamesDistinct(name, ext, lo, hi);
    if IsAbsolute(a) == IsAbsolute(b) {
      if Join(dir, a) == Join(dir, b) {
        JoinInjective(dir, a, b);
      }
    } else {
      assert name == [] && lo == 0;
      JoinLength(dir, b);
    }
  }

  /** If the first `n` candidates all exist, at least `n` paths exist. */
  lemma {:induction false} TakenCandidatesBound(existing: set<string>, dir: string, name: string, ext: string, n: nat)
    requires forall j :: 0 <= j < n ==> Candidate(dir, name, ext, j) in existing
    ensures n <= |existing|
  {
    if n > 0 {
      var last := Candidate(dir, name, ext, n - 1);
      var rest := existing - {last};
      forall j | 0 <= j < n - 1
        ensures Candidate(dir, name, ext, j) in rest
      {
        CandidatesDistinct(dir, name, ext, j, n - 1);
      }
      TakenCandidatesBound(rest, dir, name, ext, n - 1);
    }
  }

  /** Candidate `k` is the first free one. */
  ghost predicate IsFirstFree(existing: set<string>, dir: string, name: string, ext: string, k: nat) {
    && Candidate(dir, name, ext, k) !in existing
    && forall j :: 0 <= j < k ==> Candidate(dir, name, ext, j) in existing
  }

  /** The index of the first free candidate at or after `k`, given that all before `k` are taken. */
  function FirstFreeFrom(existing: set<string>, dir: string, name: string, ext: string, k: nat): (r: nat)
    requires forall j :: 0 <= j < k ==> Candidate(dir, name, ext, j) in existing
    ensures k <= r <= |existing|
    ensures IsFirstFree(existing, dir, name, ext, r)
    decreases |existing| - k
  {
    if Candidate(dir, name, ext, k) !in existing then
      TakenCandidatesBound(existing, dir, name, ext, k);
      k
    else
      TakenCandidatesBound(existing, dir, name, ext, k + 1);
      FirstFreeFrom(existing, dir, name, ext, k + 1)
  }

  /** There is only one first free candidate. */
  lemma FirstFreeUnique(existing: set<string>, dir: string, name: string, ext: string, k: nat, k': nat)
    requires IsFirstFree(existing, dir, name, ext, k)
    requires IsFirstFree(existing, dir, name, ext, k')
    ensures k == k'
  {
  }

  /**
   * The path the resolver returns for `existing` paths: never an existing path, and the
   * first free one among `name+ext`, `name_1+ext`, `name_2+ext`, ...
   */
  function Resolve(existing: set<string>, dir: string, name: string, ext: string): (p: string)
    ensures p !in existing
    ensures exists k: nat :: k <= |existing| && IsFirstFree(existing, dir, name, ext, k) && p == Candidate(dir, name, ext, k)
  {
    Candidate(dir, name, ext, FirstFreeFrom(existing, dir, name, ext, 0))
  }

  /** Any first free candidate is what Resolve returns. */
  lemma ResolveIsFirstFree(existing: set<string>, dir: string, name: string, ext: string, k: nat)
    requires IsFirstFree(existing, dir, name, ext, k)
    ensures Resolve(existing, dir, name, ext) == Candidate(dir, name, ext, k)
  {
    FirstFreeUnique(existing, dir, name, ext, k, FirstFreeFrom(existing, dir, name, ext, 0));
  }

  /**
   * `get_unique_destination_path`: probes `os.path.exists` on each candidate in turn and
   * returns the first that does not exist.
   */
  method GetUniqueDestinationPath(fs: FileSystem, basePath: string, newName: string, extension: string)
    returns (destinationPath: string)
    ensures destinationPath == Resolve(fs.files.Keys, basePath, newName, extension)
    ensures !fs.Exists(destinationPath)
  {
    ghost var existing := fs.files.Keys;
    var filename := newName + extension;
    destinationPath := Join(basePath, filename);
    var counter: nat := 1;
    while fs.Exists(destinationPath)
      invariant 1 <= counter
      invariant destinationPath == Candidate(basePath, newName, extension, counter - 1)
      invariant forall j :: 0 <= j < counter - 1 ==> Candidate(basePath, newName, extension, j) in existing
      decreases |existing| - counter
    {
      ProbedCandidateTaken(existing, basePath, newName, extension, counter);
      var uniqueFilename := newName + "_" + DecimalString(counter) + extension;
      destinationPath := Join(basePath, uniqueFilename);
      counter := counter + 1;
    }
    ResolveIsFirstFree(existing, basePath, newName, extension, counter - 1);
  }

  /** One more probe in the loop above: the candidates up to `k - 1` are taken, so `k` is within bound. */
  lemma ProbedCandidateTaken(existing: set<string>, dir: string, name: string, ext: string, k: nat)
    requires 1 <= k
    requires forall j :: 0 <= j < k - 1 ==> Candidate(dir, name, ext, j) in existing
    requires Candidate(dir, name, ext, k - 1) in existing
    ensures forall j :: 0 <= j < k ==> Candidate(dir, name, ext, j) in existing
    ensures k <= |existing|
  {
    TakenCandidatesBound(existing, dir, name, ext, k);
  }

  /** The name probed at step `k >= 1`, with the suffix written out. */
  lemma SuffixedCandidateName(name: string, ext: string, k: nat, suffix: string)
    requires 1 <= k && suffix == "_" + DecimalString(k)
    ensures CandidateName(name, ext, k) == name + suffix + ext
  {
  }

  /** An empty output directory: the plain name is used. */
  lemma ResolveWithoutConflict(dir: string, name: string, ext: string)
    ensures Resolve({}, dir, name, ext) == Join(dir, name + ext)
  {
    ResolveIsFirstFree({}, dir, name, ext, 0);
  }

  /** One file with the plain name: `_1` is appended. */
  lemma ResolveWithOneConflict(dir: string, name: string, ext: string)
    ensures Resolve({Join(dir, name + ext)}, dir, name, ext) == Join(dir, name + "_1" + ext)
  {
    var existing := {Join(dir, name + ext)};
    SuffixedCandidateName(name, ext, 1, "_1");
    CandidatesDistinct(dir, name, ext, 0, 1);
    ResolveIsFirstFree(existing, dir, name, ext, 1);
  }

  /** The plain name, `_1` and `_2` are taken: `_3` is next. */
  lemma ResolveWithThreeConflicts(dir: string, name: string, ext: string)
    ensures Resolve({Join(dir, name + ext), Join(dir, name + "_1" + ext), Join(dir, name + "_2" + ext)}, dir, name, ext)
         == Join(dir, name + "_3" + ext)
  {
    var existing := {Join(dir, name + ext), Join(dir, name + "_1" + ext), Join(dir, name + "_2" + ext)};
    SuffixedCandidateName(name, ext, 1, "_1");
    SuffixedCandidateName(name, ext, 2, "_2");
    SuffixedCandidateName(name, ext, 3, "_3");
    CandidatesDistinct(dir, name, ext, 0, 3);
    CandidatesDistinct(dir, name, ext, 1, 3);
    CandidatesDistinct(dir, name, ext, 2, 3);
    assert existing == {Candidate(dir, name, ext, 0), Candidate(dir, name, ext, 1), Candidate(dir, name, ext, 2)};
    assert Candidate(dir, name, ext, 3) !in existing;
    forall j | 0 <= j < 3
      ensures Candidate(dir, name, ext, j) in existing
    {
      assert j == 0 || j == 1 || j == 2;
    }
    ResolveIsFirstFree(existing, dir, name, ext, 3);
  }
}

/**
 * The parts of Python's `posixpath` that the pipeline relies on: `join` for two
 * components, `basename` and `splitext`. Paths are plain strings; `/` is the only
 * separator and `.` the only extension separator, as on POSIX.
 */
module Paths {

  /** `posixpath.isabs`: the path starts with a separator. */
  predicate IsAbsolute(p: string) {
    |p| > 0 && p[0] == '/'
  }

  /**
   * `os.path.join(dir, name)` on POSIX: an absolute `name` discards `dir`; otherwise a
   * separator is inserted unless `dir` is empty or already ends with one.
   */
  function Join(dir: string, name: string): (p: string)
    ensures IsAbsolute(name) ==> p == name
    ensures !IsAbsolute(name) && dir != [] && dir[|dir| - 1] != '/' ==> p == dir + "/" + name
  {
    if IsAbsolute(name) then name
    else if dir == [] || dir[|dir| - 1] == '/' then dir + name
    else dir + "/" + name
  }

  /** Joining under one directory loses nothing: two names of the same kind give the same path only if equal. */
  lemma JoinInjective(dir: string, a: string, b: string)
    requires IsAbsolute(a) == IsAbsolute(b)
    requires Join(dir, a) == Join(dir, b)
    ensures a == b
  {
    if !IsAbsolute(a) {
      var p := Join(dir, a);
      var head := if dir == [] || dir[|dir| - 1] == '/' then dir else dir + "/";
      assert p == head + a && p == head + b;
      assert a == p[|head|..] == b;
    }
  }

  /** A relative name is joined below `dir`: the path starts with `dir` and ends with the name. */
  lemma JoinShape(dir: string, name: string)
    requires !IsAbsolute(name)
    ensures var p := Join(dir, name);
            |dir| + |name| <= |p| && p[..|dir|] == dir && p[|p| - |name|..] == name
  {
  }

  /** Joining a name without separators under a directory keeps that name as the base name. */
  lemma BasenameOfJoin(dir: string, name: string)
    requires '/' !in name
    ensures Basename(Join(dir, name)) == name
  {
    var p := Join(dir, name);
    var head := if dir == [] || dir[|dir| - 1] == '/' then dir else dir + "/";
    assert p == head + name;
    var i := LastIndexOf(p, '/');
    if head == [] {
      assert p == name;
      assert i == -1;
    } else {
      assert p[|head| - 1] == '/';
      forall k | |head| <= k < |p|
        ensures p[k] != '/'
      {
        assert p[k] == name[k - |head|];
      }
      assert i == |head| - 1;
    }
  }

  /** A joined path is never shorter than the name joined. */
  lemma JoinLength(dir: string, name: string)
    ensures |Join(dir, name)| >= |name|
  {
  }

  /** Index of the last occurrence of `c` in `s`, or -1 (`str.rfind`). */
  function LastIndexOf(s: string, c: char): (r: int)
    ensures -1 <= r < |s|
    ensures r >= 0 ==> s[r] == c
    ensures r == -1 ==> c !in s
    ensures forall k :: r < k < |s| ==> s[k] != c
  {
    if s == [] then -1
    else if s[|s| - 1] == c then |s| - 1
    else LastIndexOf(s[..|s| - 1], c)
  }

  /** `posixpath.basename`: everything after the last separator. */
  function Basename(p: string): (r: string)
    ensures '/' !in r
    ensures |r| <= |p| && p[|p| - |r|..] == r
    ensures |r| < |p| ==> p[|p| - |r| - 1] == '/'
  {
    p[LastIndexOf(p, '/') + 1..]
  }

  /**
   * `posixpath.splitext`: the extension starts at the last dot, provided that dot
   * comes after the last separator and is preceded, within the last component, by
   * a character other than a dot (so `.hidden` has no extension).
   */
  function SplitExt(p: string): (r: (string, string))
    ensures r.0 + r.1 == p
    ensures r.1 == [] || (r.1[0] == '.' && '.' !in r.1[1..] && '/' !in r.1)
  {
    var sep := LastIndexOf(p, '/');
    var dot := LastIndexOf(p, '.');
    if dot > sep && exists k :: sep < k < dot && p[k] != '.' then
      assert p[..dot] + p[dot..] == p;
      (p[..dot], p[dot..])
    else
      (p, [])
  }

  /** A file name with a proper extension splits at its last dot. */
  lemma SplitExtOfImageName()
    ensures SplitExt("scan.v2" + ".JPG") == ("scan.v2", ".JPG")
  {
    var p := "scan.v2" + ".JPG";
    assert p[7] == '.' && p[0] != '.';
    assert '.' !in p[8..] && '/' !in p;
    assert LastIndexOf(p, '.') == 7;
    assert p[..7] == "scan.v2" && p[7..] == ".JPG";
  }

  /** A leading dot does not start an extension. */
  lemma SplitExtOfHiddenName()
    ensures SplitExt(".hidden") == (".hidden", "")
  {
    var p := ".hidden";
    assert LastIndexOf(p, '.') == 0;
  }

  /** A dot in a directory name does not start an extension. */
  lemma SplitExtOfDottedDirectory()
    ensures SplitExt("dir.d/photo") == ("dir.d/photo", "")
  {
    var p := "dir.d/photo";
    assert LastIndexOf(p, '/') == 5;
    assert LastIndexOf(p, '.') == 3;
  }
}

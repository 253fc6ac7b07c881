/**
 * The `System.IO.Path` functions the core calls, on a Windows host (both '\'
 * and '/' separate directories).
 */
module Paths {

  const DirectorySeparatorChar := '\\'

  predicate IsDirectorySeparator(c: char) {
    c == '\\' || c == '/'
  }

  /** No '.' and no directory separator in `s[lo..hi]`. */
  predicate Plain(s: string, lo: int, hi: int)
    requires 0 <= lo <= hi <= |s|
  {
    forall m :: lo <= m < hi ==> s[m] != '.' && !IsDirectorySeparator(s[m])
  }

  /** What `GetExtension` can return besides "": a dot followed by at least one plain character. */
  predicate IsExtension(e: string) {
    |e| >= 2 && e[0] == '.' && Plain(e, 1, |e|)
  }

  /**
   * Scans `path[..i]` backwards for a '.', stopping at a directory separator;
   * -1 when the scan finds none.
   */
  function LastDot(path: string, i: nat): (k: int)
    requires i <= |path|
    ensures -1 <= k < i
    ensures k >= 0 ==> path[k] == '.' && Plain(path, k + 1, i)
    ensures k < 0 ==> forall j :: 0 <= j < i && path[j] == '.' ==> !Plain(path, j + 1, i)
  {
    if i == 0 then -1
    else if path[i - 1] == '.' then i - 1
    else if IsDirectorySeparator(path[i - 1]) then -1
    else LastDot(path, i - 1)
  }

  /** `Path.GetExtension`: from the last '.' of the last path segment, or "" when that dot ends the path. */
  function GetExtension(path: string): string {
    var k := LastDot(path, |path|);
    if k < 0 || k == |path| - 1 then "" else path[k..]
  }

  /** An extension is either empty or a true extension ending the path. */
  lemma ExtensionShape(path: string)
    ensures var e := GetExtension(path);
      e == "" || (IsExtension(e) && |e| <= |path| && e == path[|path| - |e|..])
  {
    var k := LastDot(path, |path|);
    if k >= 0 && k != |path| - 1 {
      var e := path[k..];
      assert forall m :: 1 <= m < |e| ==> e[m] == path[k + m];
    }
  }

  /** A path that ends in a true extension has that extension. */
  lemma ExtensionOfSuffix(path: string, e: string)
    requires IsExtension(e) && |e| <= |path| && path[|path| - |e|..] == e
    ensures GetExtension(path) == e
  {
    var n := |path| - |e|;
    forall m | n <= m < |path| ensures path[m] == e[m - n] { }
    assert path[n] == '.';
    assert Plain(path, n + 1, |path|);
    var k := LastDot(path, |path|);
    assert k == n;
  }

  /**
   * Appending an (empty or true) extension to a name without dots or separators
   * gives a path whose extension is exactly that one.
   */
  lemma ExtensionOfAppended(stem: string, e: string)
    requires Plain(stem, 0, |stem|)
    requires e == "" || IsExtension(e)
    ensures GetExtension(stem + e) == e
  {
    var p := stem + e;
    if e == "" {
      assert p == stem;
      assert LastDot(p, |p|) < 0;
    } else {
      assert p[|p| - |e|..] == e;
      ExtensionOfSuffix(p, e);
    }
  }

  /** Scans `path[..i]` backwards for a directory separator; -1 when there is none. */
  function LastSeparator(path: string, i: nat): (k: int)
    requires i <= |path|
    ensures -1 <= k < i
    ensures k >= 0 ==> IsDirectorySeparator(path[k])
    ensures forall j :: k < j < i ==> !IsDirectorySeparator(path[j])
  {
    if i == 0 then -1
    else if IsDirectorySeparator(path[i - 1]) then i - 1
    else LastSeparator(path, i - 1)
  }

  /** Index of the last `c` in `s[..i]`, or -1. */
  function LastIndexOf(s: string, c: char, i: nat): (k: int)
    requires i <= |s|
    ensures -1 <= k < i
    ensures k >= 0 ==> s[k] == c
    ensures forall j :: k < j < i ==> s[j] != c
  {
    if i == 0 then -1
    else if s[i - 1] == c then i - 1
    else LastIndexOf(s, c, i - 1)
  }

  /** `Path.GetFileName`: the part after the last directory separator. */
  function GetFileName(path: string): string {
    path[LastSeparator(path, |path|) + 1..]
  }

  /** `Path.GetFileNameWithoutExtension`: the file name cut at its last '.'. */
  function GetFileNameWithoutExtension(path: string): string {
    var name := GetFileName(path);
    var k := LastIndexOf(name, '.', |name|);
    if k < 0 then name else name[..k]
  }

  /** A path without directory separators is its own file name. */
  lemma FileNameOfPlain(p: string)
    requires forall m :: 0 <= m < |p| ==> !IsDirectorySeparator(p[m])
    ensures GetFileName(p) == p
  {
    assert LastSeparator(p, |p|) == -1;
  }

  /** The stem in front of an (empty or true) extension is what `GetFileNameWithoutExtension` gives back. */
  lemma StemOfAppended(stem: string, e: string)
    requires Plain(stem, 0, |stem|)
    requires e == "" || IsExtension(e)
    ensures GetFileNameWithoutExtension(stem + e) == stem
  {
    var p := stem + e;
    forall m | 0 <= m < |stem| ensures p[m] == stem[m] { }
    forall m | |stem| <= m < |p| ensures p[m] == e[m - |stem|] { }
    FileNameOfPlain(p);
    var k := LastIndexOf(p, '.', |p|);
    if e == "" {
      assert k < 0;
    } else {
      assert p[|stem|] == '.';
      assert k == |stem|;
      assert p[..k] == stem;
    }
  }

  predicate IsValidDriveChar(c: char) {
    'a' <= c <= 'z' || 'A' <= c <= 'Z'
  }

  /** `Path.IsPathRooted` on Windows. */
  predicate IsPathRooted(path: string) {
    (|path| >= 1 && IsDirectorySeparator(path[0]))
    || (|path| >= 2 && IsValidDriveChar(path[0]) && path[1] == ':')
  }

  /** `Path.Combine(path1, path2)` for two non-null paths. */
  function Combine(path1: string, path2: string): string {
    if path2 == "" then path1
    else if path1 == "" then path2
    else if IsPathRooted(path2) then path2
    else if IsDirectorySeparator(path1[|path1| - 1]) || IsDirectorySeparator(path2[0]) then path1 + path2
    else path1 + [DirectorySeparatorChar] + path2
  }

  /**
   * Below a fixed directory, `Combine` keeps file names apart: two non-empty plain
   * names give the same path only when they are the same name.
   */
  lemma CombineInjective(dir: string, n1: string, n2: string)
    requires n1 != "" && n2 != ""
    requires !IsPathRooted(n1) && !IsPathRooted(n2)
    requires !IsDirectorySeparator(n1[0]) && !IsDirectorySeparator(n2[0])
    requires Combine(dir, n1) == Combine(dir, n2)
    ensures n1 == n2
  {
    if dir != "" {
      var pre := if IsDirectorySeparator(dir[|dir| - 1]) then dir else dir + [DirectorySeparatorChar];
      assert Combine(dir, n1) == pre + n1 && Combine(dir, n2) == pre + n2;
      assert n1 == (pre + n1)[|pre|..];
      assert n2 == (pre + n2)[|pre|..];
    }
  }
}

/**
 * The two framework path helpers the conversion uses: `Path.GetFileName`
 * (the part after the last directory separator) and `Path.Combine` (a
 * directory joined with a name by one separator), for Windows separators.
 */
module Paths {

  const DirectorySeparator: char := '\\'
  const AltDirectorySeparator: char := '/'

  predicate IsSeparator(c: char) {
    c == DirectorySeparator || c == AltDirectorySeparator
  }

  predicate HasNoSeparator(s: string) {
    forall i :: 0 <= i < |s| ==> !IsSeparator(s[i])
  }

  /** The index just after the last separator of `path`, or 0 when it has none. */
  function NameStart(path: string): (k: nat)
    ensures k <= |path|
    ensures k == 0 || IsSeparator(path[k - 1])
    ensures forall i :: k <= i < |path| ==> !IsSeparator(path[i])
  {
    if |path| == 0 then 0
    else if IsSeparator(path[|path| - 1]) then |path|
    else NameStart(path[..|path| - 1])
  }

  /**
   * The file name of a path: the suffix of `path` that holds no separator and
   * is preceded by a separator or by the start of the path. These three
   * properties determine the name (see FileNameIsUnique).
   */
  function GetFileName(path: string): (name: string)
    ensures |name| <= |path| && path == path[..|path| - |name|] + name
    ensures |name| == |path| || IsSeparator(path[|path| - |name| - 1])
    ensures HasNoSeparator(name)
  {
    path[NameStart(path)..]
  }

  /** Any separator-free suffix that starts after a separator (or at 0) is the file name. */
  lemma FileNameIsUnique(path: string, k: nat)
    requires k <= |path|
    requires k == 0 || IsSeparator(path[k - 1])
    requires HasNoSeparator(path[k..])
    ensures GetFileName(path) == path[k..]
  {
  }

  /**
   * `Path.Combine(dir, name)`: the name alone when the directory is empty, the
   * directory alone when the name is empty, otherwise the two joined by one
   * separator unless the directory already ends with one.
   */
  function Combine(dir: string, name: string): (path: string)
    ensures |dir| == 0 ==> path == name
    ensures |dir| > 0 && |name| > 0 ==>
      && |dir| + |name| <= |path| <= |dir| + 1 + |name|
      && path[..|dir|] == dir && path[|path| - |name|..] == name
      && IsSeparator(path[|path| - |name| - 1])
  {
    if |dir| == 0 then name
    else if |name| == 0 then dir
    else if IsSeparator(dir[|dir| - 1]) then dir + name
    else dir + [DirectorySeparator] + name
  }

  /** Combining a directory with a file name and taking the file name gives the name back. */
  lemma FileNameOfCombine(dir: string, name: string)
    requires |dir| > 0 && |name| > 0 && HasNoSeparator(name)
    ensures GetFileName(Combine(dir, name)) == name
  {
    var path := Combine(dir, name);
    var k := |path| - |name|;
    assert path[k..] == name;
    assert IsSeparator(path[k - 1]);
    FileNameIsUnique(path, k);
  }

  /** Within one directory, different file names give different combined paths. */
  lemma CombineIsInjective(dir: string, name1: string, name2: string)
    requires |dir| > 0 && HasNoSeparator(name1) && HasNoSeparator(name2)
    requires Combine(dir, name1) == Combine(dir, name2)
    ensures name1 == name2
  {
    if |name1| > 0 && |name2| > 0 {
      FileNameOfCombine(dir, name1);
      FileNameOfCombine(dir, name2);
    }
  }
}

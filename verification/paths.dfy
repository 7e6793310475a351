/** File names taken from paths. */
module Paths {

  /** The index of the last occurrence of c, or -1. */
  function LastIndexOf(s: string, c: char): (i: int)
    ensures -1 <= i < |s|
    ensures i >= 0 ==> s[i] == c
    ensures forall k | i < k < |s| :: s[k] != c
  {
    if |s| == 0 then -1 else if s[|s| - 1] == c then |s| - 1 else LastIndexOf(s[..|s| - 1], c)
  }

  /** What follows the last slash, unless that slash is the very first character. */
  function BaseName(filename: string): string {
    var pos := LastIndexOf(filename, '/');
    if pos > 0 then filename[pos + 1..] else filename
  }

  /** A base name is free of slashes exactly when the path has no slash only at its start. */
  lemma BaseNameSlashFreeIff(filename: string)
    ensures '/' !in BaseName(filename) <==> LastIndexOf(filename, '/') != 0
  {
  }

  /** The name of a file stored under a non-empty directory path is read back from its full path. */
  lemma BaseNameOfJoined(dir: string, name: string)
    requires |dir| > 0 && '/' !in name
    ensures BaseName(dir + "/" + name) == name
  {
    var path := dir + "/" + name;
    assert path[|dir| + 1..] == name;
    assert path[|dir|] == '/' && forall k | |dir| < k < |path| :: path[k] == name[k - |dir| - 1];
    assert LastIndexOf(path, '/') == |dir|;
  }

  /** A name that begins with a slash loses it when it is joined to a directory. */
  lemma SlashAtFront(dir: string, name: string)
    requires |dir| > 0 && LastIndexOf(name, '/') == 0
    ensures BaseName(dir + "/" + name) == name[1..]
  {
    var path := dir + "/" + name;
    assert path[|dir| + 1] == '/' && forall k | |dir| + 1 < k < |path| :: path[k] == name[k - |dir| - 1];
    assert LastIndexOf(path, '/') == |dir| + 1;
    assert path[|dir| + 2..] == name[1..];
  }
}

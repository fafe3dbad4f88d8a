/** String operations the file selector relies on: suffix tests as done by
    Python's `str.endswith` (one suffix, or a tuple of suffixes) and the
    joining of a directory and an entry name into a path. */
module Paths {

  /** `s.endswith(suffix)`: an exact, case-sensitive suffix test. The empty
      suffix matches every string. */
  predicate EndsWith(s: string, suffix: string)
  {
    |suffix| <= |s| && s[|s| - |suffix|..] == suffix
  }

  /** `s.endswith(suffixes)` for a tuple: true when some member of the tuple
      is a suffix of `s`, false for an empty tuple. */
  function EndsWithAny(s: string, suffixes: seq<string>): (b: bool)
    ensures b <==> exists i :: 0 <= i < |suffixes| && EndsWith(s, suffixes[i])
  {
    if suffixes == [] then false
    else if EndsWith(s, suffixes[0]) then true
    else
      var rest := EndsWithAny(s, suffixes[1..]);
      assert forall i :: 1 <= i < |suffixes| ==> suffixes[i] == suffixes[1..][i - 1];
      rest
  }

  /** A suffix of a suffix is a suffix. */
  lemma EndsWithTransitive(a: string, b: string, c: string)
    requires EndsWith(a, b) && EndsWith(b, c)
    ensures EndsWith(a, c)
  {
  }

  /** Names that end in an accepted extension are accepted. */
  lemma ClaimExtensionExamples()
    ensures EndsWithAny("claim1.835", [".835", ".837"])
    ensures EndsWithAny("claim2.837", [".835", ".837"])
  {
    assert "claim1.835"[6..] == ".835";
    assert "claim2.837"[6..] == ".837";
  }

  /** Names that merely contain an accepted extension, extend it, or end in
      another one are rejected, and an empty tuple accepts nothing. */
  lemma RejectedNameExamples()
    ensures !EndsWithAny("a.835.txt", [".835", ".837"])
    ensures !EndsWithAny("a.8350", [".835", ".837"])
    ensures !EndsWithAny("notes.txt", [".835", ".837"])
    ensures !EndsWithAny("claim1.835", [])
  {
    assert "a.835.txt"[5..] == ".txt";
    assert "a.8350"[2..] == "8350";
    assert "notes.txt"[5..] == ".txt";
  }

  /** The separator inserted between a directory and a name (Windows). */
  const Separator: char := '\\'

  predicate IsSeparator(c: char)
  {
    c == '\\' || c == '/'
  }

  /** `os.path.join(directory, name)` for a plain entry name: a separator is
      inserted unless the directory is empty or already ends in one. */
  function Join(dir: string, name: string): (path: string)
    ensures |path| == |dir| + |name| || |path| == |dir| + 1 + |name|
    ensures path[..|dir|] == dir
    ensures EndsWith(path, name)
    ensures |path| == |dir| + |name| <==> dir == [] || IsSeparator(dir[|dir| - 1])
    ensures |path| == |dir| + 1 + |name| ==> path[|dir|] == Separator
  {
    if dir == [] || IsSeparator(dir[|dir| - 1]) then dir + name
    else dir + [Separator] + name
  }

  /** Within one directory, distinct names give distinct paths. */
  lemma JoinInjective(dir: string, a: string, b: string)
    requires Join(dir, a) == Join(dir, b)
    ensures a == b
  {
  }
}

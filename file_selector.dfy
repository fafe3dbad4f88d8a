/** The file selector of the upload agent (`get_weekly_files`): list one
    directory, keep the entries whose name ends in an accepted extension and
    whose creation time lies strictly after "now minus seven days", and
    return their joined paths in listing order.

    The file system is a value: a directory listing per directory path and a
    creation time (integer seconds) per file path. A path missing from
    `listings` is a directory that `os.listdir` cannot list, a path missing
    from `ctimes` a file whose `os.path.getctime` raises; both abort the scan. */
module FileSelector {
  import opened Paths

  /** The selection window: seven days, in seconds. */
  const Week: int := 7 * 24 * 60 * 60

  datatype FileSystem = FileSystem(listings: map<string, seq<string>>, ctimes: map<string, int>)

  /** The two exceptions the scan lets through. */
  datatype ScanError =
    | DirectoryUnavailable(dir: string)
    | MetadataUnavailable(path: string)

  datatype Result<T> = Ok(value: T) | Err(error: ScanError)

  /** What one scan decides with: the file system it reads, the directory,
      the accepted extensions and the cutoff computed once at the start. */
  datatype Query = Query(fs: FileSystem, dir: string, exts: seq<string>, cutoff: int)
  {
    function PathOf(name: string): string
    {
      Join(dir, name)
    }

    /** The extension test, made before any metadata is read. */
    predicate Matches(name: string)
    {
      EndsWithAny(name, exts)
    }

    /** A matching name whose creation time cannot be read. */
    predicate Unreadable(name: string)
    {
      Matches(name) && PathOf(name) !in fs.ctimes
    }

    /** A matching name created strictly after the cutoff. */
    predicate Qualifies(name: string)
    {
      Matches(name) && PathOf(name) in fs.ctimes && fs.ctimes[PathOf(name)] > cutoff
    }
  }

  /** The paths kept from `names`, in order: the list the scan accumulates. */
  function Selection(q: Query, names: seq<string>): (paths: seq<string>)
    ensures |paths| <= |names|
  {
    if names == [] then []
    else
      var last := names[|names| - 1];
      Selection(q, names[..|names| - 1]) + (if q.Qualifies(last) then [q.PathOf(last)] else [])
  }

  /** How many paths the entries before index `i` contribute: the position in
      the selection at which entry `i`'s path lands when it qualifies. */
  function Rank(q: Query, names: seq<string>, i: nat): nat
    requires i <= |names|
  {
    |Selection(q, names[..i])|
  }

  /** The index of the first matching name whose creation time cannot be
      read, or `|names|` when there is none. */
  function FirstUnreadable(q: Query, names: seq<string>): (k: nat)
    ensures k <= |names|
    ensures k < |names| ==> q.Unreadable(names[k])
    ensures forall j :: 0 <= j < k ==> !q.Unreadable(names[j])
  {
    if names == [] then 0
    else if q.Unreadable(names[0]) then 0
    else
      var k := FirstUnreadable(q, names[1..]);
      assert forall j :: 1 <= j < k + 1 ==> names[j] == names[1..][j - 1];
      1 + k
  }

  /** What `get_weekly_files(dir)` produces when run at time `now`: the
      listing error, the error of the first unreadable matching entry, or the
      selection. */
  function WeeklyFiles(fs: FileSystem, dir: string, exts: seq<string>, now: int): (r: Result<seq<string>>)
    ensures r == Err(DirectoryUnavailable(dir)) <==> dir !in fs.listings
    ensures r.Ok? <==>
      dir in fs.listings &&
      forall i :: 0 <= i < |fs.listings[dir]| ==> !Query(fs, dir, exts, now - Week).Unreadable(fs.listings[dir][i])
    ensures r.Err? && r.error.MetadataUnavailable? ==>
      dir in fs.listings &&
      exists i :: 0 <= i < |fs.listings[dir]| &&
        Query(fs, dir, exts, now - Week).Unreadable(fs.listings[dir][i]) &&
        r.error.path == Join(dir, fs.listings[dir][i])
  {
    if dir !in fs.listings then Err(DirectoryUnavailable(dir))
    else
      var q := Query(fs, dir, exts, now - Week);
      var names := fs.listings[dir];
      var k := FirstUnreadable(q, names);
      if k < |names| then Err(MetadataUnavailable(q.PathOf(names[k])))
      else Ok(Selection(q, names))
  }

  /** One step of the scan: processing entry `i` appends its path when it
      qualifies and nothing otherwise. */
  lemma SelectionStep(q: Query, names: seq<string>, i: nat)
    requires i < |names|
    ensures Selection(q, names[..i + 1]) ==
      Selection(q, names[..i]) + (if q.Qualifies(names[i]) then [q.PathOf(names[i])] else [])
  {
    assert names[..i + 1][..i] == names[..i];
  }

  /** An unreadable matching entry after only readable ones is the first. */
  lemma FirstUnreadableAt(q: Query, names: seq<string>, i: nat)
    requires i < |names| && q.Unreadable(names[i])
    requires forall j :: 0 <= j < i ==> !q.Unreadable(names[j])
    ensures FirstUnreadable(q, names) == i
  {
  }

  /** `get_weekly_files`: one pass over the listing, appending each kept
      path; the cutoff is computed once, before the loop. */
  method GetWeeklyFiles(fs: FileSystem, dir: string, exts: seq<string>, now: int) returns (r: Result<seq<string>>)
    ensures r == WeeklyFiles(fs, dir, exts, now)
  {
    if dir !in fs.listings {
      return Err(DirectoryUnavailable(dir));
    }
    var weeklyFiles: seq<string> := [];
    var oneWeekAgo := now - Week;
    var names := fs.listings[dir];
    ghost var q := Query(fs, dir, exts, oneWeekAgo);
    for i := 0 to |names|
      invariant weeklyFiles == Selection(q, names[..i])
      invariant forall j :: 0 <= j < i ==> !q.Unreadable(names[j])
    {
      var filename := names[i];
      SelectionStep(q, names, i);
      if EndsWithAny(filename, exts) {
        var filePath := Join(dir, filename);
        if filePath !in fs.ctimes {
          FirstUnreadableAt(q, names, i);
          return Err(MetadataUnavailable(filePath));
        }
        var creationTime := fs.ctimes[filePath];
        if creationTime > oneWeekAgo {
          weeklyFiles := weeklyFiles + [filePath];
        }
      }
    }
    assert names[..|names|] == names;
    return Ok(weeklyFiles);
  }
}

/** Properties of the selection and of the whole scan. */
module SelectorProperties {
  import opened Paths
  import opened FileSelector

  /** Selecting from a concatenated listing selects from each part in turn. */
  lemma {:induction false} SelectionAppend(q: Query, a: seq<string>, b: seq<string>)
    ensures Selection(q, a + b) == Selection(q, a) + Selection(q, b)
    decreases |b|
  {
    if b == [] {
      assert a + b == a;
    } else {
      var init := b[..|b| - 1];
      assert (a + b)[..|a + b| - 1] == a + init;
      SelectionAppend(q, a, init);
    }
  }

  /** The selection is empty exactly when no entry qualifies; an empty listing
      gives an empty selection. */
  lemma {:induction false} SelectionEmptyIff(q: Query, names: seq<string>)
    ensures Selection(q, names) == [] <==> forall i :: 0 <= i < |names| ==> !q.Qualifies(names[i])
  {
    if names != [] {
      var init := names[..|names| - 1];
      SelectionEmptyIff(q, init);
      assert forall i :: 0 <= i < |init| ==> init[i] == names[i];
    }
  }

  /** Completeness and placement: a qualifying entry's path stands in the
      selection at the entry's rank. */
  lemma SelectionPlaces(q: Query, names: seq<string>, i: nat)
    requires i < |names| && q.Qualifies(names[i])
    ensures Rank(q, names, i) < |Selection(q, names)|
    ensures Selection(q, names)[Rank(q, names, i)] == q.PathOf(names[i])
  {
    var pre, post := names[..i], names[i + 1..];
    assert names == pre + [names[i]] + post;
    SelectionAppend(q, pre + [names[i]], post);
    SelectionAppend(q, pre, [names[i]]);
    assert [names[i]][..0] == [];
  }

  /** Order: of two qualifying entries, the earlier one's path comes first. */
  lemma SelectionKeepsOrder(q: Query, names: seq<string>, i: nat, k: nat)
    requires i < k < |names| && q.Qualifies(names[i]) && q.Qualifies(names[k])
    ensures Rank(q, names, i) < Rank(q, names, k) < |Selection(q, names)|
    ensures Selection(q, names)[Rank(q, names, i)] == q.PathOf(names[i])
    ensures Selection(q, names)[Rank(q, names, k)] == q.PathOf(names[k])
  {
    RankGrowsPast(q, names, i, k);
    SelectionPlaces(q, names, i);
    SelectionPlaces(q, names, k);
  }

  /** Every entry after a qualifying one has a strictly larger rank. */
  lemma RankGrowsPast(q: Query, names: seq<string>, i: nat, k: nat)
    requires i < k <= |names| && q.Qualifies(names[i])
    ensures Rank(q, names, i) < Rank(q, names, k)
  {
    SelectionStep(q, names, i);
    var upToI, between := names[..i + 1], names[i + 1..k];
    assert names[..k] == upToI + between;
    SelectionAppend(q, upToI, between);
  }

  /** Soundness and order: every selected path is the joined path of a
      qualifying entry, and sits at that entry's rank. */
  lemma {:induction false} SelectionSource(q: Query, names: seq<string>, j: nat)
    requires j < |Selection(q, names)|
    ensures exists i ::
      && 0 <= i < |names|
      && Rank(q, names, i) == j
      && q.Qualifies(names[i])
      && Selection(q, names)[j] == q.PathOf(names[i])
  {
    var init := names[..|names| - 1];
    if j < |Selection(q, init)| {
      SelectionSource(q, init, j);
      var i :| 0 <= i < |init| && Rank(q, init, i) == j && q.Qualifies(init[i]) && Selection(q, init)[j] == q.PathOf(init[i]);
      assert names[..i] == init[..i];
      assert Rank(q, names, i) == j;
    } else {
      assert Rank(q, names, |names| - 1) == j;
    }
  }

  /** Soundness in the source's own terms: every selected path ends in an
      accepted extension, its creation time was read, and that time is
      strictly after the cutoff. */
  lemma SelectionSound(q: Query, names: seq<string>, j: nat)
    requires j < |Selection(q, names)|
    ensures EndsWithAny(Selection(q, names)[j], q.exts)
    ensures Selection(q, names)[j] in q.fs.ctimes
    ensures q.fs.ctimes[Selection(q, names)[j]] > q.cutoff
  {
    SelectionSource(q, names, j);
    var i :| 0 <= i < |names| && q.Qualifies(names[i]) && Selection(q, names)[j] == q.PathOf(names[i]);
    var name := names[i];
    assert q.Qualifies(name);
    assert q.Matches(name);
    var e :| 0 <= e < |q.exts| && EndsWith(names[i], q.exts[e]);
    EndsWithTransitive(q.PathOf(names[i]), names[i], q.exts[e]);
  }

  /** Multiplicity: a name's path occurs in the selection once per listing
      occurrence when the name qualifies, and not at all otherwise. */
  lemma {:induction false} SelectionCount(q: Query, names: seq<string>, n: string)
    ensures multiset(Selection(q, names))[q.PathOf(n)] ==
      if q.Qualifies(n) then multiset(names)[n] else 0
  {
    if names != [] {
      var init := names[..|names| - 1];
      var last := names[|names| - 1];
      assert names == init + [last];
      SelectionCount(q, init, n);
      if q.PathOf(last) == q.PathOf(n) {
        JoinInjective(q.dir, last, n);
      }
    }
  }

  /** A later cutoff never selects more: what a run selects, an earlier run on
      the same directory selected too. */
  lemma {:induction false} SelectionShrinksWithCutoff(q: Query, names: seq<string>, later: int)
    requires q.cutoff <= later
    ensures multiset(Selection(q.(cutoff := later), names)) <= multiset(Selection(q, names))
  {
    if names != [] {
      SelectionShrinksWithCutoff(q, names[..|names| - 1], later);
    }
  }

  /** Two file systems that agree on the creation times of the matching
      entries of `names` (including which of them are readable). */
  predicate AgreeOnMatches(q1: Query, q2: Query, names: seq<string>)
  {
    forall i :: 0 <= i < |names| && q1.Matches(names[i]) ==>
      (q1.PathOf(names[i]) in q1.fs.ctimes <==> q1.PathOf(names[i]) in q2.fs.ctimes) &&
      (q1.PathOf(names[i]) in q1.fs.ctimes ==> q1.fs.ctimes[q1.PathOf(names[i])] == q2.fs.ctimes[q1.PathOf(names[i])])
  }

  lemma {:induction false} SelectionReadsOnlyMatches(q1: Query, q2: Query, names: seq<string>)
    requires q2 == q1.(fs := q2.fs) && AgreeOnMatches(q1, q2, names)
    ensures Selection(q1, names) == Selection(q2, names)
  {
    if names != [] {
      var init := names[..|names| - 1];
      assert forall i :: 0 <= i < |init| ==> init[i] == names[i];
      SelectionReadsOnlyMatches(q1, q2, init);
    }
  }

  lemma FirstUnreadableReadsOnlyMatches(q1: Query, q2: Query, names: seq<string>)
    requires q2 == q1.(fs := q2.fs) && AgreeOnMatches(q1, q2, names)
    ensures FirstUnreadable(q1, names) == FirstUnreadable(q2, names)
  {
  }

  /** Creation times are consulted only for names that pass the extension
      test: changing, adding or removing the timestamp of any other entry
      does not change the outcome of the scan. */
  lemma WeeklyFilesReadsOnlyMatchingTimes(fs1: FileSystem, fs2: FileSystem, dir: string, exts: seq<string>, now: int)
    requires fs1.listings == fs2.listings
    requires dir in fs1.listings ==>
      AgreeOnMatches(Query(fs1, dir, exts, now - Week), Query(fs2, dir, exts, now - Week), fs1.listings[dir])
    ensures WeeklyFiles(fs1, dir, exts, now) == WeeklyFiles(fs2, dir, exts, now)
  {
    if dir in fs1.listings {
      var q1, q2 := Query(fs1, dir, exts, now - Week), Query(fs2, dir, exts, now - Week);
      SelectionReadsOnlyMatches(q1, q2, fs1.listings[dir]);
      FirstUnreadableReadsOnlyMatches(q1, q2, fs1.listings[dir]);
    }
  }

  /** When every matching entry is readable, the scan returns the selection. */
  lemma WeeklyFilesWhenReadable(fs: FileSystem, dir: string, exts: seq<string>, now: int)
    requires dir in fs.listings
    requires forall i :: 0 <= i < |fs.listings[dir]| && EndsWithAny(fs.listings[dir][i], exts) ==>
      Join(dir, fs.listings[dir][i]) in fs.ctimes
    ensures WeeklyFiles(fs, dir, exts, now) == Ok(Selection(Query(fs, dir, exts, now - Week), fs.listings[dir]))
  {
  }

  const Day: int := 24 * 60 * 60

  /** A three-entry listing where only the first entry qualifies selects
      exactly that entry's path. */
  lemma OnlyFirstOfThree(q: Query, a: string, b: string, c: string)
    requires q.Qualifies(a) && !q.Qualifies(b) && !q.Qualifies(c)
    requires !q.Unreadable(b) && !q.Unreadable(c)
    ensures FirstUnreadable(q, [a, b, c]) == 3
    ensures Selection(q, [a, b, c]) == [q.PathOf(a)]
  {
    assert [a, b, c][1..] == [b, c] && [b, c][1..] == [c];
    assert [a, b, c][..2] == [a, b] && [a, b][..1] == [a] && [a][..0] == [];
    assert Selection(q, [a]) == [q.PathOf(a)];
    assert Selection(q, [a, b]) == [q.PathOf(a)];
  }

  /** A sample claim archive: one 835 file two days old, one
      837 file ten days old and a day-old text file of the wrong type; only
      the first is selected. */
  lemma ArchiveScenario(fs: FileSystem, dir: string, now: int)
    requires dir in fs.listings && fs.listings[dir] == ["claim1.835", "claim2.837", "notes.txt"]
    requires Join(dir, "claim1.835") in fs.ctimes && fs.ctimes[Join(dir, "claim1.835")] == now - 2 * Day
    requires Join(dir, "claim2.837") in fs.ctimes && fs.ctimes[Join(dir, "claim2.837")] == now - 10 * Day
    requires Join(dir, "notes.txt") in fs.ctimes && fs.ctimes[Join(dir, "notes.txt")] == now - Day
    ensures WeeklyFiles(fs, dir, [".835", ".837"], now) == Ok([Join(dir, "claim1.835")])
  {
    ClaimExtensionExamples();
    RejectedNameExamples();
    OnlyFirstOfThree(Query(fs, dir, [".835", ".837"], now - Week), "claim1.835", "claim2.837", "notes.txt");
  }

  /** The window is open at its start: a matching file created exactly a
      week before `now` is left out, one created a second later is kept. */
  lemma CutoffIsExclusive(fs: FileSystem, dir: string, now: int)
    requires dir in fs.listings && fs.listings[dir] == ["edge.835", "inside.837"]
    requires Join(dir, "edge.835") in fs.ctimes && fs.ctimes[Join(dir, "edge.835")] == now - Week
    requires Join(dir, "inside.837") in fs.ctimes && fs.ctimes[Join(dir, "inside.837")] == now - Week + 1
    ensures WeeklyFiles(fs, dir, [".835", ".837"], now) == Ok([Join(dir, "inside.837")])
  {
    assert "inside.837"[6..] == ".837";
    assert EndsWith("inside.837", [".835", ".837"][1]);
    OnlyLastOfTwo(Query(fs, dir, [".835", ".837"], now - Week), "edge.835", "inside.837");
  }

  /** A two-entry listing where only the second entry qualifies selects
      exactly that entry's path. */
  lemma OnlyLastOfTwo(q: Query, a: string, b: string)
    requires !q.Unreadable(a) && !q.Qualifies(a) && q.Qualifies(b)
    ensures FirstUnreadable(q, [a, b]) == 2
    ensures Selection(q, [a, b]) == [q.PathOf(b)]
  {
    assert [a, b][1..] == [b] && [a, b][..1] == [a] && [a][..0] == [];
    assert Selection(q, [a]) == [];
  }
}

# Weekly claim-file selection for the upload agent

This project models the decision logic of a small agent that uploads claim files. The agent scans a shared archive folder. It keeps the entries whose name ends in `.835` or `.837` and that were created within the last seven days. It then hands all of them, as one batch, to a web application's upload form. If nothing qualifies, it stops without uploading.

The model covers two things.

- `get_weekly_files`: the loop over the directory listing, the extension test, the creation-time test against a cutoff computed once, and the path join. The errors it lets escape are modelled too.
- `run_agent`: the decision to abort, stop, or upload the whole selection as one batch.

The file system is a value `FileSystem(listings, ctimes)`:

- `listings` maps a directory path to its listing, in the order the listing returns it.
- `ctimes` maps a file path to its creation time in whole seconds.
- A directory missing from `listings` is one whose listing raises.
- A path missing from `ctimes` is one whose creation time cannot be read.

The clock reading `now`, the directory and the extension tuple are parameters.

Modules:

- `Paths` (`paths.dfy`): suffix tests with the semantics of Python's `str.endswith`, and the directory/name join.
- `FileSelector` (`file_selector.dfy`): the scan itself. It contains the specification functions `Selection`, `FirstUnreadable` and `WeeklyFiles`, and the method `GetWeeklyFiles`. The method's loop invariant ties the list built so far to `Selection` over the prefix of the listing already processed.
- `SelectorProperties` (`file_selector.dfy`): soundness, completeness with multiplicity, order, bounds, the exclusive cutoff, and the fact that timestamps of non-matching entries are never consulted.
- `Agent` (`agent.dfy`): `RunAgent`, the end-of-run decision.

What the scan does and does not do:

- The scan does not skip directories. Any entry with a matching name is timestamped and can be selected.
- An unreadable creation time aborts the whole scan. `os.path.getctime` raises, and the exception ends the scan and the run. The model returns `Err(MetadataUnavailable(path))` for the first such matching entry, and nothing that was selected before it survives.
- The folder is the constant at `file_upload_ai_agent.py:7`.

## Model

| member | source | states |
|---|---|---|
| `Paths.EndsWithAny` | file_upload_ai_agent.py:18 | `name.endswith(FILE_EXTENSIONS)` holds iff some suffix in the tuple is an exact, case-sensitive suffix of the name; an empty tuple accepts nothing |
| `Paths.ClaimExtensionExamples` | file_upload_ai_agent.py:9 | with the configured suffixes `('.835', '.837')`, `claim1.835` and `claim2.837` are accepted |
| `Paths.RejectedNameExamples` | file_upload_ai_agent.py:18 | `a.835.txt`, `a.8350` and `notes.txt` are rejected by the configured suffixes, and an empty suffix tuple rejects every name |
| `Paths.Join` | file_upload_ai_agent.py:19 | the joined path begins with the directory and ends with the entry name; a backslash is inserted between them exactly when the directory is non-empty and does not already end in a separator, so no separator is doubled |
| `Paths.JoinInjective` | file_upload_ai_agent.py:19 | within one directory, distinct names give distinct paths |
| `FileSelector.FirstUnreadable` | file_upload_ai_agent.py:17-21 | the index of the first listed entry that passes the extension test but has no readable creation time; every earlier entry is readable or non-matching |
| `FileSelector.WeeklyFiles` | file_upload_ai_agent.py:11-26 | the call fails with the directory error iff the directory cannot be listed; it succeeds iff the directory is listed and every matching entry's creation time can be read; a metadata error names the joined path of a matching entry with no creation time |
| `FileSelector.GetWeeklyFiles` | file_upload_ai_agent.py:11-26 | the loop that appends each kept path returns exactly `WeeklyFiles` for the same file system, directory, suffixes and `now`; the result is a function of these inputs alone, since the cutoff is computed once before the loop |
| `SelectorProperties.SelectionAppend` | file_upload_ai_agent.py:17-24 | the selection from a concatenated listing is the selection from the first part followed by the selection from the second |
| `FileSelector.Selection` | file_upload_ai_agent.py:13-24 | the list the loop accumulates over a listing: the joined paths of the qualifying entries in listing order; it never has more entries than the listing |
| `SelectorProperties.SelectionEmptyIff` | file_upload_ai_agent.py:26 | the selection is empty exactly when no listed entry qualifies, including for an empty listing; this is not an error |
| `SelectorProperties.SelectionPlaces` | file_upload_ai_agent.py:17-24 | completeness: the path of every qualifying listed entry appears in the selection, at the position given by the number of kept entries before it |
| `SelectorProperties.SelectionKeepsOrder` | file_upload_ai_agent.py:17-24 | order: of two qualifying entries, the path of the earlier one comes strictly before the path of the later one |
| `SelectorProperties.SelectionSource` | file_upload_ai_agent.py:17-24 | nothing is added: every selected path is the joined path of a qualifying listed entry and sits at that entry's position |
| `SelectorProperties.SelectionSound` | file_upload_ai_agent.py:18-23 | every selected path ends in an accepted extension, has a readable creation time, and that time is strictly greater than the cutoff |
| `SelectorProperties.SelectionCount` | file_upload_ai_agent.py:17-24 | multiplicity: a name's path occurs in the selection once per occurrence of the name in the listing if the name qualifies, and not at all otherwise |
| `SelectorProperties.SelectionShrinksWithCutoff` | file_upload_ai_agent.py:15 | on an unchanged folder (same listing and creation times), a later cutoff selects a sub-multiset of what an earlier cutoff selects |
| `SelectorProperties.SelectionReadsOnlyMatches` | file_upload_ai_agent.py:18-21 | the selection depends only on the creation times of entries that pass the extension test |
| `SelectorProperties.FirstUnreadableReadsOnlyMatches` | file_upload_ai_agent.py:18-21 | whether and where the scan fails depends only on the creation times of entries that pass the extension test |
| `SelectorProperties.WeeklyFilesReadsOnlyMatchingTimes` | file_upload_ai_agent.py:18-21 | adding, removing or changing the creation time of any non-matching entry does not change the outcome of the scan |
| `SelectorProperties.WeeklyFilesWhenReadable` | file_upload_ai_agent.py:17-26 | when every matching entry's creation time can be read, the scan returns the selection and never fails |
| `SelectorProperties.ArchiveScenario` | file_upload_ai_agent.py:11-26 | a `.835` file two days old is selected; a `.837` file ten days old and a day-old `notes.txt` are not |
| `SelectorProperties.CutoffIsExclusive` | file_upload_ai_agent.py:23 | a matching file created exactly 604800 s before `now` is excluded; one created a second later is included |
| `Agent.RunAgent` | file_upload_ai_agent.py:29-33 | the run aborts iff the scan fails, with the scan's error; it stops without uploading iff the directory is listed and no entry is unreadable or qualifies; otherwise the whole non-empty selection is the single batch given to the file chooser (line 57), and every path in it has an accepted extension and a creation time strictly after the cutoff |

## Left out

- The browser session (`file_upload_ai_agent.py:37-65`): the launch, navigation, the two clicks, the file-chooser interception, submit, the 5-second wait and closing. These are calls into a browser-automation library with no logic of their own. The model ends at the batch handed to the file chooser.
- Real file-system access: `os.listdir` and `os.path.getctime` are replaced by the `FileSystem` value. Listing order is whatever the value holds, as with `os.listdir`.
- Paths.Join: models `os.path.join` for a plain entry name only. It adds a backslash unless the directory is empty or already ends in `\` or `/`. Drive-relative directories such as `C:`, and names that are themselves absolute, are not modelled. Names returned by a directory listing are never absolute.
- Times: `datetime.now()`, `datetime.fromtimestamp` and `timedelta(days=7)` work on floating-point, naive local wall-clock times. The model uses whole seconds and a fixed window of 604800 s. Sub-second precision is not modelled, and neither is a daylight-saving shift inside the window, which changes the real length of seven local days by an hour.
- `print` output (`file_upload_ai_agent.py:32`, `:35`, `:64`).
- The configuration constants (`file_upload_ai_agent.py:7-9`): the folder and the suffix tuple are parameters, and the application URL is not used by the modelled part.
- Errors the browser session may raise after the hand-over are not modelled.

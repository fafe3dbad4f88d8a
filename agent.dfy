/** The agent's entry point (`run_agent`): scan the archive and either stop
    (nothing this week), let a scan error end the run, or hand the whole
    selection to the upload form's file chooser as one batch. The browser
    steps around that hand-over are not modelled. */
module Agent {
  import opened Paths
  import opened FileSelector
  import opened SelectorProperties

  /** How a run ends. `Upload` carries the list given to the file chooser. */
  datatype Decision =
    | Abort(error: ScanError)
    | NothingToUpload
    | Upload(batch: seq<string>)

  method RunAgent(fs: FileSystem, location: string, exts: seq<string>, now: int) returns (d: Decision)
    ensures d.Abort? <==> WeeklyFiles(fs, location, exts, now).Err?
    ensures d.Abort? ==> d.error == WeeklyFiles(fs, location, exts, now).error
    ensures d.Upload? ==> WeeklyFiles(fs, location, exts, now) == Ok(d.batch) && d.batch != []
    ensures d == NothingToUpload <==>
      location in fs.listings &&
      var q := Query(fs, location, exts, now - Week);
      forall i :: 0 <= i < |fs.listings[location]| ==>
        !q.Unreadable(fs.listings[location][i]) && !q.Qualifies(fs.listings[location][i])
    ensures d.Upload? ==> forall j :: 0 <= j < |d.batch| ==>
      EndsWithAny(d.batch[j], exts) && d.batch[j] in fs.ctimes && fs.ctimes[d.batch[j]] > now - Week
  {
    var filesToUpload := GetWeeklyFiles(fs, location, exts, now);
    if filesToUpload.Err? {
      return Abort(filesToUpload.error);
    }
    var q := Query(fs, location, exts, now - Week);
    SelectionEmptyIff(q, fs.listings[location]);
    if filesToUpload.value == [] {
      return NothingToUpload;
    }
    forall j | 0 <= j < |filesToUpload.value|
      ensures EndsWithAny(filesToUpload.value[j], exts)
      ensures filesToUpload.value[j] in fs.ctimes && fs.ctimes[filesToUpload.value[j]] > now - Week
    {
      SelectionSound(q, fs.listings[location], j);
    }
    d := Upload(filesToUpload.value);
  }
}

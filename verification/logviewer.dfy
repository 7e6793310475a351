/** The log viewer, which shows a log file and catches up with it line by line. */
module LogViewing {

  /** Log files by name, as lines. */
  class LogFiles {
    var files: map<string, seq<string>>

    constructor ()
      ensures files == map[]
    {
      files := map[];
    }
  }

  /** The lines of a file after the first few. */
  function LinesFrom(lines: seq<string>, startline: nat): seq<string> {
    if startline <= |lines| then lines[startline..] else []
  }

  /** Catching up makes the display equal to the log exactly when it showed a beginning of it. */
  lemma CatchingUpIff(shown: seq<string>, lines: seq<string>)
    ensures shown + LinesFrom(lines, |shown|) == lines <==> shown <= lines
  {
    if shown <= lines {
      assert lines == lines[..|shown|] + lines[|shown|..];
    }
  }

  class LogViewer {
    const logs: LogFiles
    const progressLog: string
    const fullLog: string
    var currentLog: string
    var logList: seq<string>

    constructor (logs: LogFiles, progressLog: string, fullLog: string)
      ensures this.logs == logs && this.progressLog == progressLog && this.fullLog == fullLog
      ensures currentLog == progressLog && logList == []
    {
      this.logs, this.progressLog, this.fullLog := logs, progressLog, fullLog;
      currentLog, logList := progressLog, [];
    }

    /** The display is a beginning of the log it belongs to, and empty while there is none. */
    ghost predicate Follows()
      reads this, logs
    {
      if currentLog in logs.files then logList <= logs.files[currentLog] else logList == []
    }

    method LoadFile(filename: string, startline: nat, openable: bool) returns (ok: bool, list: seq<string>)
      ensures ok == (filename in logs.files && openable)
      ensures list == if ok then LinesFrom(logs.files[filename], startline) else []
    {
      list := [];
      if filename !in logs.files {
        return false, list;
      }
      if !openable {
        return false, list;
      }
      var lines := logs.files[filename];
      var pos, skip := 0, startline;
      while pos < |lines| && skip > 0
        invariant 0 <= pos <= |lines| && skip == startline - pos >= 0
      {
        pos := pos + 1;
        skip := skip - 1;
      }
      ghost var from := pos;
      while pos < |lines|
        invariant from <= pos <= |lines|
        invariant list == lines[from..pos]
      {
        list := list + [lines[pos]];
        pos := pos + 1;
      }
      return true, list;
    }

    /** New lines of the log are added to the display; what is shown is never looked at again. */
    method UpdateClicked(openable: bool)
      modifies this`logList
      ensures openable && currentLog in logs.files ==>
        logList == old(logList) + LinesFrom(logs.files[currentLog], |old(logList)|)
      ensures !openable || currentLog !in logs.files ==> logList == old(logList)
      ensures openable && currentLog in logs.files ==>
        (logList == logs.files[currentLog] <==> old(logList) <= logs.files[currentLog])
      ensures old(Follows()) ==> Follows()
    {
      var _, list := LoadFile(currentLog, |logList|, openable);
      if openable && currentLog in logs.files {
        CatchingUpIff(logList, logs.files[currentLog]);
      }
      ghost var before := logList;
      for x := 0 to |list|
        invariant logList == before + list[..x]
      {
        logList := logList + [list[x]];
      }
      assert list[..|list|] == list;
    }

    method ShowLog(full: bool, openable: bool)
      modifies this`logList, this`currentLog
      ensures currentLog == if full then fullLog else progressLog
      ensures Follows()
      ensures openable && currentLog in logs.files ==> logList == logs.files[currentLog]
    {
      currentLog := if full then fullLog else progressLog;
      logList := [];
      UpdateClicked(openable);
    }
  }

  datatype Event =
    | Append(filename: string, lines: seq<string>)
    | Update(openable: bool)
    | Show(full: bool, openable: bool)

  /** The log files after some events: only appending changes one. */
  function FilesAfter(files: map<string, seq<string>>, events: seq<Event>): map<string, seq<string>> {
    if |events| == 0 then files
    else
      var before := FilesAfter(files, events[..|events| - 1]);
      match events[|events| - 1]
      case Append(filename, lines) =>
        before[filename := (if filename in before then before[filename] else []) + lines]
      case _ => before
  }

  /** Which log is shown after some events: the one last switched to. */
  function LogAfter(current: string, progressLog: string, fullLog: string, events: seq<Event>): string {
    if |events| == 0 then current
    else
      match events[|events| - 1]
      case Show(full, _) => if full then fullLog else progressLog
      case _ => LogAfter(current, progressLog, fullLog, events[..|events| - 1])
  }

  predicate Reads(event: Event) {
    !event.Append? && event.openable
  }

  /** However appends to the logs, updates and switches between the logs are mixed, the
      display stays a beginning of the log it belongs to, and is all of it after each update
      that could read the file. */
  method RunViewer(viewer: LogViewer, events: seq<Event>)
    requires viewer.Follows()
    modifies viewer`logList, viewer`currentLog, viewer.logs
    ensures viewer.logs.files == FilesAfter(old(viewer.logs.files), events)
    ensures viewer.currentLog == LogAfter(old(viewer.currentLog), viewer.progressLog, viewer.fullLog, events)
    ensures viewer.Follows()
    ensures |events| > 0 && Reads(events[|events| - 1]) && viewer.currentLog in viewer.logs.files ==>
      viewer.logList == viewer.logs.files[viewer.currentLog]
  {
    for k := 0 to |events|
      invariant viewer.logs.files == FilesAfter(old(viewer.logs.files), events[..k])
      invariant viewer.currentLog == LogAfter(old(viewer.currentLog), viewer.progressLog, viewer.fullLog, events[..k])
      invariant viewer.Follows()
      invariant k > 0 && Reads(events[k - 1]) && viewer.currentLog in viewer.logs.files ==>
        viewer.logList == viewer.logs.files[viewer.currentLog]
    {
      assert events[..k + 1][..k] == events[..k];
      match events[k]
      case Append(filename, lines) =>
        var before := if filename in viewer.logs.files then viewer.logs.files[filename] else [];
        viewer.logs.files := viewer.logs.files[filename := before + lines];
      case Update(openable) => viewer.UpdateClicked(openable);
      case Show(full, openable) => viewer.ShowLog(full, openable);
    }
    assert events[..|events|] == events;
  }
}

/** The durations the probing helper reports for a file. */
module FileInfo {
  import opened ArchiveItems
  import opened CutList
  import opened ThumbFinding
  import opened TimeText

  /** The duration left after all cuts; a file that is no recording has no cut frames. */
  method CutDuration(duration: int, isRecording: bool, marks: DeleteMap, fps: real) returns (left: int)
    requires fps > 0.0
    requires isRecording ==> EvenMarksOpen(marks)
    ensures left == duration - Trunc((if isRecording then HelperCount(marks) else 0) as real / fps)
    ensures !isRecording ==> left == duration
  {
    var frames := 0;
    if isRecording {
      frames := GetCutFrames(marks);
    }
    var cutduration := Trunc(frames as real / fps);
    left := duration - cutduration;
  }

  /** For a recording whose marks pair up, the cut duration the helper reports is the final
      duration the thumbnail editor computes when that cut list is in use. */
  method CutDurationIsFinalDuration(item: ArchiveItem, marks: DeleteMap, fps: real) returns (left: int)
    requires fps > 0.0 && EvenMarksOpen(marks) && |marks| % 2 == 0
    requires item.about.itemType == RECORDING && item.about.hasCutlist && item.useCutlist
    ensures left == FinalDuration(item, LoadedCuts(item, marks), fps)
  {
    left := CutDuration(item.media.duration, true, marks, fps);
  }
}

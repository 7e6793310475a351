# MythArchive: cut lists, item lists and native archives

A Dafny model of the logic of the MythArchive plugin and its helper program, with proofs.

- `cutlist.dfy`, `seeking.dfy`: cut lists, the walk from logical to physical frames, and the seek state machine of the thumbnail editor.
- `timetext.dfy`, `thumbfinder.dfy`, `fileinfo.dfy`: clock readings and captions, the editor itself with its working copy of the thumbnails, and the durations the helper reports.
- `archiveitems.dfy`, `selecting.dfy`, `burnlist.dfy`, `burnsession.dfy`: items, profiles and sizes, the selectors that edit the shared item list, the burn screen, and whole runs of it.
- `dom.dfy`, `paths.dfy`, `recordingarchive.dfy`, `videoarchive.dfy`: native export and import of recordings and videos as element trees over small relational stores.
- `schemaupgrade.dfy`, `logviewer.dfy`: the stepwise schema upgrade and the log viewer.

Objects the program updates in place are classes, and their methods are proved against functions on values; the properties are then lemmas about those functions, or methods that run whole sessions. Assumptions: the decoder shows the frame asked for, or the nearest one the file has, and the next one when it is only to decode on (the program reads one packet more than the picture needs, and drops it); a cut list has strictly increasing marks from 0 on, an even number of them, that end within the file; the default encoder profile exists. Both programs take the marks two by two and call the frames of each pair cut; `CutList.WalkKeepsClearIff` says when that is what the marks say.

Some behaviour differs from what one would expect. Where it depends on the input, the exact condition is proved, and a failing input is given:

- A seek below 0 or past the last kept frame, the one-frame shortcut, every cut-point seek, and a seek the decoder refuses can leave a frame that is cut, or an offset that is wrong (`Seeking.StepKeepsSyncIff`, `Seeking.TryKeepsSyncIff`). The shortcut is also taken by larger amounts, when the offset happens to be one less, and then moves a single frame (`Seeking.ShortcutMovesByOne`).
- The helper's count of cut frames never ends on a mark map with an even entry that opens no cut, such as the one two cuts that touch are stored as. When it ends, it is right exactly on pairs of a start and an end: three cuts that touch are counted without the middle one, and a start mark left open is subtracted (`CutList.CountingTerminatesIff`, `CutList.HelperCountExactIff`). On the same maps the thumbnail editor shows frames that are cut (`CutList.WalkKeepsClearIff`).
- Abandoning the profile dialog keeps the highlighted profile but does not draw the size bar (`BurnList.MythBurn.ChangeProfile`, `BurnSession.RunSession`), and every refresh of the item list drops the order the user gave it (`BurnList.MythBurn.UpdateArchiveList`).
- Confirming an empty selection removes items of every type (`Selecting.OtherTypesSurviveIff`).
- Exporting and importing recording marks names an `offset` column, which `mythtv/libs/libmythtv/dbcheck.cpp:4144` has dropped from that table; without it no marks are archived, and the copy still counts as a success (`RecordingArchive.CopyMarksIff`).
- A video restored under a file name that exists already adds its names to the older video (`VideoArchive.RestoreAnywhere`).
- An unknown schema version counts as a successful upgrade (`SchemaUpgrade.ArchiveDatabase.UpgradeArchiveDatabaseSchema`).
- Saving the schema version deletes the old row before it inserts the new one. When only the deletion succeeds, the next upgrade starts from nothing (`SchemaUpgrade.SavedVersionIff`, `SchemaUpgrade.UpgradeAfterLostVersion`); the properties of whole runs hold exactly when that never happens (`SchemaUpgrade.RunUpgrades`).
- Chapter thumbnails count whole frames per second, so at a fractional frame rate they are late, in the end by whole seconds (`ThumbFinding.ChapterReadsItsSecondIff`).

## Model

| member | source | states |
|---|---|---|
| `CutList.PositionIsKept` | mythplugins/mytharchive/mytharchive/thumbfinder.cpp:618-632 | for every logical frame, the walk lands on a frame outside every pair of marks, with exactly that many kept frames below it and exactly `m_offset` cut frames below it |
| `CutList.PositionReachesKept` | mythplugins/mytharchive/mytharchive/thumbfinder.cpp:618-632 | every frame outside the pairs is where exactly one logical frame lands, the number of kept frames below it; with the row above, the walk is a bijection onto them |
| `CutList.PositionStrictlyIncreasing` | mythplugins/mytharchive/mytharchive/thumbfinder.cpp:618-632 | later logical frames land on later frames |
| `CutList.WalkInvariant` | mythplugins/mytharchive/mytharchive/thumbfinder.cpp:621-629 | after each interval the walk stands on a frame the intervals so far keep, shifted by the frames they remove below it |
| `CutList.NegativeIsUnshifted` | mythplugins/mytharchive/mytharchive/thumbfinder.cpp:621-629 | a frame number below zero is shifted by no cut |
| `CutList.PositionWithin` | mythplugins/mytharchive/mytharchive/thumbfinder.cpp:618-632 | a logical frame lands inside the first n frames exactly when fewer than all their kept frames precede it |
| `CutList.CutLengthIsCutFrames` | mythplugins/mytharchive/mytharchive/thumbfinder.cpp:913-919 | the summed lengths of the pairs are the number of frames in them |
| `CutList.CountingTerminatesIff` | mythplugins/mytharchive/mytharchivehelper/main.cpp:2006-2021 | the helper's loop ends exactly when every even entry of the mark map opens a cut; otherwise it never gets past the first that does not |
| `CutList.GetCutFrames` | mythplugins/mytharchive/mytharchivehelper/main.cpp:1998-2024 | when it ends, the loop returns what its own turns add up to, and on marks in pairs the total length of the cuts |
| `CutList.HelperCountIsLoopResult` | mythplugins/mytharchive/mytharchivehelper/main.cpp:2006-2021 | the loop's result in closed form: the length of the pairs less the frame number of a start mark left over |
| `CutList.KindLengthIsCutFrames` | mythtv/libs/libmythtv/NuppelVideoPlayer.cpp:5645-5705 | read by their kinds, as the player does (a start inside a cut changes nothing, the last of several ends counts, an open start runs to the end of the file), the marks cut as many frames as the lengths between them add up to |
| `CutList.HelperCountExactIff` | mythplugins/mytharchive/mytharchivehelper/main.cpp:2006-2021 | the count is the number of frames that the marks cut, by their kinds, exactly when they come in pairs of a start and an end, but for a last start on the very end of the file |
| `CutList.AgreeingIsCut` | mythplugins/mytharchive/mytharchive/thumbfinder.cpp:621-629 | where starts and ends take turns, a frame is in a pair exactly when the marks cut it |
| `CutList.WalkKeepsClearIff` | mythplugins/mytharchive/mytharchive/thumbfinder.cpp:618-632 | the walk keeps clear of every frame that the marks cut exactly when starts and ends take turns, but for an end on frame 0 |
| `CutList.AgreeingCounts` | mythplugins/mytharchive/mytharchive/thumbfinder.cpp:618-632 | then `m_offset` counts the frames that the marks cut |
| `CutList.TouchingCutsNeverCounted` | mythtv/programs/mythcommflag/main.cpp:228-239 | failing input: for the map that the cuts 0-100 and 100-200 are stored as, the loop never ends |
| `CutList.MiddleCutMissed` | mythplugins/mytharchive/mytharchivehelper/main.cpp:2006-2021 | failing input: for the map that the cuts 0-100, 100-200 and 200-300 are stored as, the count is 200 of 300 |
| `CutList.MiddleCutShown` | mythplugins/mytharchive/mytharchive/thumbfinder.cpp:618-632 | failing input: on the same map the walk shows frame 100, which is cut |
| `CutList.OpenCutMiscounted` | mythplugins/mytharchive/mytharchivehelper/main.cpp:2006-2021 | failing input: for one cut left open at frame 100 the count is -100 |
| `Seeking.CheckedSeekIff` | mythplugins/mytharchive/mytharchive/thumbfinder.cpp:635-658 | a checked seek leaves the position in sync exactly when its target is an index the film has, or the border frame it falls on is kept; inside the range its index is the target |
| `Seeking.StepKeepsSyncIff` | mythplugins/mytharchive/mytharchive/thumbfinder.cpp:660-733 | for each kind of step, the exact condition, known before the step, under which the frame shown stays a kept one and `m_offset` the number of cut frames below it |
| `Seeking.TryKeepsSyncIff` | mythplugins/mytharchive/mytharchive/thumbfinder.cpp:644-653 | the same for every step with the decoder's answer: a refused seek leaves the position in sync exactly when the offset it has put in place is the one already in force |
| `Seeking.OpenedInSyncIff` | mythplugins/mytharchive/mytharchive/thumbfinder.cpp:488-489 | the position a film opens with is in sync exactly when the cuts leave a frame |
| `Seeking.ShortcutIff` | mythplugins/mytharchive/mytharchive/thumbfinder.cpp:691-692 | decoding just the next picture stays in sync unless a cut begins there |
| `Seeking.CutPointSeekIff` | mythplugins/mytharchive/mytharchive/thumbfinder.cpp:670-686 | a cut-point seek, forward or backward, stays in sync only when the cut list is unused or it goes to a kept frame 0 |
| `Seeking.CheckedRunStaysInSync` | mythplugins/mytharchive/mytharchive/thumbfinder.cpp:635-733 | along any run of accepted thumb jumps and timed seeks with targets in range that avoids the shortcut, the frame shown is kept and its index is the sum of what was asked for |
| `Seeking.RunInSyncIff` | mythplugins/mytharchive/mytharchive/thumbfinder.cpp:635-733 | every state of a run, with seeks accepted and refused, is in sync exactly when each of its steps meets its condition |
| `Seeking.UnusedCutlistHasNoOffset` | mythplugins/mytharchive/mytharchive/thumbfinder.cpp:615-616 | with the cut list unused, `m_offset` stays 0 whatever is pressed or refused |
| `Seeking.NextCutShowsCutFrame` | mythplugins/mytharchive/mytharchive/thumbfinder.cpp:670-686 | failing input: from a kept frame, the forward cut-point seek shows the first frame of the cut |
| `Seeking.ShortcutShowsCutFrame` | mythplugins/mytharchive/mytharchive/thumbfinder.cpp:691-692 | failing input: one frame ahead of the last frame before a cut is in the cut |
| `Seeking.ShortcutLosesAmount` | mythplugins/mytharchive/mytharchive/thumbfinder.cpp:690-692 | failing input: behind a cut of 100 frames, going ahead by 101 moves one |
| `Seeking.BackShowsCutFrame` | mythplugins/mytharchive/mytharchive/thumbfinder.cpp:728-730 | failing input: going back past the beginning shows frame 0, which is cut |
| `Seeking.AheadShowsCutFrame` | mythplugins/mytharchive/mytharchive/thumbfinder.cpp:690-694 | failing input: going ahead past the last kept frame shows the last frame, which is cut |
| `Seeking.RefusedSeekLosesSync` | mythplugins/mytharchive/mytharchive/thumbfinder.cpp:637-653 | failing input: a refused seek over a cut leaves the picture in front of it with the offset behind it |
| `Seeking.ShortcutMovesByOne` | mythplugins/mytharchive/mytharchive/thumbfinder.cpp:690-694 | the shortcut moves the index by the amount asked for exactly when that is one frame, which is exactly when no cut lies below the current frame |
| `Seeking.ThumbRoundTripIff` | mythplugins/mytharchive/mytharchive/thumbfinder.cpp:359-360 | the frame number stored with a thumbnail leads back to the same frame exactly when the position was in sync, or showed the border frame its index runs off at |
| `Seeking.ForwardThenBackIff` | mythplugins/mytharchive/mytharchive/thumbfinder.cpp:670-686 | forward then backward from a mark that has a successor returns to it, except from a mark on the last frame of the file |
| `Seeking.ForwardVisitsMarks` | mythplugins/mytharchive/mytharchive/thumbfinder.cpp:670-686 | n forward cut-point seeks from in front of the first mark visit the first n marks in order |
| `Seeking.ForwardWrapsToStart` | mythplugins/mytharchive/mytharchive/thumbfinder.cpp:672-684 | past the last mark a forward cut-point seek goes to frame 0 |
| `Seeking.NextMarkIs` | mythplugins/mytharchive/mytharchive/thumbfinder.cpp:672-681 | the forward cut-point seek goes to the least mark above the current frame, or to 0 |
| `Seeking.PrevMarkIs` | mythplugins/mytharchive/mytharchive/thumbfinder.cpp:711-719 | the backward cut-point seek goes to the greatest mark below the current frame, or to 0 |
| `TimeText.ClockMeaning` | mythplugins/mytharchive/mytharchive/thumbfinder.cpp:370-380 | minutes and seconds below 60, the whole seconds of the frame's time, fewer than fps+1 left-over frames, and the frame recovered from the reading |
| `TimeText.ClockInjective` | mythplugins/mytharchive/mytharchive/thumbfinder.cpp:370-387 | different frames have different readings |
| `TimeText.FrameCaptionSeconds` | mythplugins/mytharchive/mytharchive/thumbfinder.cpp:382-386 | a stored caption reads back as the whole seconds of its frame |
| `TimeText.ChapterCaptionSeconds` | mythplugins/mytharchive/mytharchive/thumbfinder.cpp:467-471 | a chapter caption reads back as the second it was made for |
| `ArchiveItems.RecalcItemSize` | mythplugins/mytharchive/mytharchive/archiveutil.cpp:270-299 | afterwards the size is the one that the next two rows give the item; without a profile, or re-encoding nothing, it is left alone |
| `ArchiveItems.EncodedItemSize` | mythplugins/mytharchive/mytharchive/archiveutil.cpp:284-298 | an item to encode gets the whole bytes of its duration, or of its cut duration when it uses its cuts, at the megabytes an hour that its profile names |
| `ArchiveItems.CopiedItemSize` | mythplugins/mytharchive/mytharchive/archiveutil.cpp:272-286 | an item to copy gets its file size, or the share of it that the cut duration is of the duration, down to a whole byte; without a duration that share is undefined; without a profile, or to encode without a duration, an item keeps its size |
| `ArchiveItems.CopySizeIsShare` | mythplugins/mytharchive/mytharchive/archiveutil.cpp:276-280 | a copied item using its cuts keeps its size times cut duration over duration, rounded down |
| `ArchiveItems.CutsNeverEnlarge` | mythplugins/mytharchive/mytharchive/archiveutil.cpp:276-298 | using the cuts never gives a larger size than not using them |
| `ArchiveItems.GetFileDetails` | mythplugins/mytharchive/mytharchive/archiveutil.cpp:234-255 | a failed probe changes nothing, a file without video only codec and durations, and only a full probe counts as success |
| `ArchiveItems.SizeSurvivesProbeIff` | mythplugins/mytharchive/mytharchive/thumbfinder.cpp:389-398 | probing an item again, which computes no size, leaves its size that of its profile exactly when it has none by its new durations, or the same |
| `ThumbFinding.ThumbFinder.CheckFramePosition` | mythplugins/mytharchive/mytharchive/thumbfinder.cpp:613-633 | the loop computes the walk: for a frame from 0 on, a kept frame with that many kept frames below it, and `m_offset` the cut frames below it |
| `ThumbFinding.ThumbFinder.SeekToFrame` | mythplugins/mytharchive/mytharchive/thumbfinder.cpp:635-658 | shows the frame the walk gives; a seek the decoder refuses has replaced `m_offset` already but not the picture |
| `ThumbFinding.ThumbFinder.SeekForward` | mythplugins/mytharchive/mytharchive/thumbfinder.cpp:660-697 | the step that the forward key asks for with the chosen amount, as the rows on `SecondsKeysMove`, `FrameKeysMove` and `CutPointKeysShowMarks` describe it |
| `ThumbFinding.ThumbFinder.SeekBackward` | mythplugins/mytharchive/mytharchive/thumbfinder.cpp:699-733 | the step that the backward key asks for with the chosen amount, as the same rows describe it |
| `ThumbFinding.SecondsKeysMove` | mythplugins/mytharchive/mytharchive/thumbfinder.cpp:687-694 | with an amount of n seconds, the keys seek n times as many frames ahead or back as the frame rate rounded up; from a position in sync the index moves by exactly that, unless it runs off an end or is one more than the offset |
| `ThumbFinding.FrameKeysMove` | mythplugins/mytharchive/mytharchive/thumbfinder.cpp:667-668 | with an amount of one frame the index moves by one; going forward, the new position is in sync unless nothing is cut so far and a cut begins there |
| `ThumbFinding.CutPointKeysShowMarks` | mythplugins/mytharchive/mytharchive/thumbfinder.cpp:670-686 | with an amount of one cut point the keys show the next mark above, or below, the frame on display, or the beginning of the file when there is none |
| `ThumbFinding.RefusedKey` | mythplugins/mytharchive/mytharchive/thumbfinder.cpp:644-653 | a key whose seek is refused keeps the picture but takes the offset of the seek |
| `ThumbFinding.AmountKeysCircle` | mythplugins/mytharchive/mytharchive/thumbfinder.cpp:286-302 | any number of up or down keys leads that many places round the nine amounts, and changes nothing else |
| `ThumbFinding.PickThenStore` | mythplugins/mytharchive/mytharchive/thumbfinder.cpp:341-368 | picking a thumbnail and storing it replaces that one alone: its frame is the index on display and, except for the title, its caption reads back as the second of that frame |
| `ThumbFinding.ThumbFinder.ChangeSeekAmount` | mythplugins/mytharchive/mytharchive/thumbfinder.cpp:286-302 | steps through the amounts in a circle |
| `ThumbFinding.ThumbFinder.UpdateThumb` | mythplugins/mytharchive/mytharchive/thumbfinder.cpp:341-368 | replaces frame and (except for the title) caption of one working thumbnail and touches nothing of the item's own |
| `ThumbFinding.ThumbFinder.KeyPress` | mythplugins/mytharchive/mytharchive/thumbfinder.cpp:169-205 | each key has its effect on the editor's state, and none changes the item's thumbnails |
| `ThumbFinding.ThumbFinder.CalcFinalDuration` | mythplugins/mytharchive/mytharchive/thumbfinder.cpp:903-925 | the duration, less the whole seconds of the cut frames when a recording uses its cuts |
| `ThumbFinding.FinalDurationIs` | mythplugins/mytharchive/mytharchive/thumbfinder.cpp:903-925 | a recording that uses its cuts loses exactly the whole seconds of the frames in them; every other item keeps its duration |
| `ThumbFinding.ThumbFinder.EnsureThumb` | mythplugins/mytharchive/mytharchive/thumbfinder.cpp:450-483 | a thumbnail that is missing is appended with its default details |
| `ThumbFinding.ThumbFinder.GetThumbImages` | mythplugins/mytharchive/mytharchive/thumbfinder.cpp:389-503 | given thumbnails stay, the missing ones up to one per chapter plus the title are defaults, no object is shared with the item, and the first kept frame is shown |
| `ThumbFinding.ThumbFinder.SavePressed` | mythplugins/mytharchive/mytharchive/thumbfinder.cpp:253-268 | the item gets equal thumbnails in new objects |
| `ThumbFinding.ThumbFinder.constructor` | mythplugins/mytharchive/mytharchive/thumbfinder.cpp:57-82 | the working list is a copy in new objects |
| `ThumbFinding.ChaptersInOrder` | mythplugins/mytharchive/mytharchive/thumbfinder.cpp:412-416 | chapter frames never decrease, and increase when chapters have a length |
| `ThumbFinding.ChapterWithinRecording` | mythplugins/mytharchive/mytharchive/thumbfinder.cpp:464-473 | a chapter's caption denotes exactly its second, which lies before the end of a recording of positive duration |
| `ThumbFinding.StartingThumbsAre` | mythplugins/mytharchive/mytharchive/thumbfinder.cpp:420-483 | an editor starts with the item's own thumbnails and defaults for the missing ones, one per chapter and the title in all |
| `ThumbFinding.FirstLayout` | mythplugins/mytharchive/mytharchive/thumbfinder.cpp:412-483 | the chapters that an item has no thumbnail for have one length, the whole seconds that go into the final duration once for each of them: chapter x is x-1 lengths in, its caption reads back as that second, within the recording, its frame is that many seconds at the frame rate rounded up, and chapters are in order; an item without any starts with the title at frame 0 |
| `ThumbFinding.TitleOnly` | mythplugins/mytharchive/mytharchive/thumbfinder.cpp:412-483 | without chapters there is the title alone, or what the item has already |
| `ThumbFinding.ChapterReadsItsSecondIff` | mythplugins/mytharchive/mytharchive/thumbfinder.cpp:473 | a chapter's frame reads, on the program's clock, the second its caption names exactly as long as rounding the rate up has made it less than one second's frames late |
| `ThumbFinding.ChapterFrameLate` | mythplugins/mytharchive/mytharchive/thumbfinder.cpp:473 | failing input: at 29.97 frames per second the chapter captioned 00:16:40 shows a frame of 00:16:41 |
| `ThumbFinding.StoredThumbLeadsBackIff` | mythplugins/mytharchive/mytharchive/thumbfinder.cpp:174-177 | picking a stored thumbnail later, from any state, shows the frame it was stored for, under the exact condition above |
| `ThumbFinding.KeysSeek` | mythplugins/mytharchive/mytharchive/thumbfinder.cpp:169-205 | the seek state after a run of keys is that of the run of seeks the keys ask for |
| `ThumbFinding.KeysStayInSyncIff` | mythplugins/mytharchive/mytharchive/thumbfinder.cpp:169-205 | every state of a run of keys, with any seeks refused, is in sync exactly when each key meets its condition |
| `ThumbFinding.KeptThumbLeadsBackIff` | mythplugins/mytharchive/mytharchive/thumbfinder.cpp:341-368 | a thumbnail stored anywhere in a run of keys, and not stored again, leads back to its frame from any later state exactly when the position was in sync then, or showed the border frame its index runs off at |
| `ThumbFinding.EditThumbnails` | mythplugins/mytharchive/mytharchive/thumbfinder.cpp:65-72 | whatever keys are pressed, the item's thumbnails change only on saving, and then become what the keys made of the working list; of the rest of the item, only what probing finds changes |
| `FileInfo.CutDuration` | mythplugins/mytharchive/mytharchivehelper/main.cpp:2236-2241 | the duration less the whole seconds of the helper's count of cut frames |
| `FileInfo.CutDurationIsFinalDuration` | mythplugins/mytharchive/mytharchivehelper/main.cpp:2236-2241 | for marks in start/end pairs this is the final duration of the thumbnail editor with the cuts in use |
| `BurnList.MythBurn.UpdateSizeBar` | mythplugins/mytharchive/mytharchive/mythburn.cpp:209-248 | the bar shows the whole megabytes of the sum of all sizes and warns exactly when they exceed the free space |
| `BurnList.MythBurn.BarReads` | mythplugins/mytharchive/mytharchive/mythburn.cpp:219-236 | below four petabytes a bar that is right shows the whole megabytes of the sum, and warns exactly when they are more than the kilobytes free |
| `BurnList.MythBurn.GetDefaultProfile` | mythplugins/mytharchive/mytharchive/mythburn.cpp:539-587 | the first profile for a codec that reads `mpeg2video` in any case at one of the four picture sizes of the standard in use; for anything else the profile of the default name that none of that name follows |
| `BurnList.MythBurn.GetProfileFromName` | mythplugins/mytharchive/mytharchive/mythburn.cpp:728-735 | the first profile of a name, if any |
| `BurnList.MythBurn.UpdateArchiveList` | mythplugins/mytharchive/mytharchive/mythburn.cpp:406-487 | every item is probed, given a profile and sized as needed; the buttons show the list in its own order; lists, sizes and bar agree |
| `BurnList.RefreshedItem` | mythplugins/mytharchive/mytharchive/mythburn.cpp:434-444 | refreshing takes what probing finds for an item without a duration, and the default profile for one without a profile, computes its size again, and changes nothing else |
| `BurnList.MythBurn.ToggleUseCutlist` | mythplugins/mytharchive/mytharchive/mythburn.cpp:323-356 | flips the choice of an item that has a cut list, only; lists, sizes and bar agree |
| `BurnList.MythBurn.RemoveItem` | mythplugins/mytharchive/mytharchive/mythburn.cpp:825-836 | exactly the current item leaves the list; the buttons fall back to the list's order |
| `BurnList.MythBurn.MoveTo` | mythtv/libs/libmythui/mythuibuttonlist.cpp:614-654 | taking the current item out and putting it one place further swaps it with its neighbour and stays on it |
| `BurnList.MythBurn.MoveUpDown` | mythplugins/mytharchive/mytharchive/mythburn.cpp:171-178 | the current item swaps places with its neighbour, except at the ends; the same items are shown |
| `BurnList.MythBurn.MoveKey` | mythplugins/mytharchive/mytharchive/mythburn.cpp:158-181 | in move mode the keys swap the item with its neighbour or put it down, and do nothing else |
| `BurnList.MythBurn.Highlight` | mythplugins/mytharchive/mytharchive/mythburn.cpp:146-147 | outside move mode the list's own keys put the cursor on another item |
| `BurnList.MythBurn.HighlightProfile` | mythplugins/mytharchive/mytharchive/mythburn.cpp:1100-1117 | the item gets the profile and its size at once; the lists still agree |
| `BurnList.MythBurn.ProfileChanged` | mythplugins/mytharchive/mytharchive/mythburn.cpp:907-928 | sets the profile and redraws the bar without resizing: right when that profile was highlighted already, or both only copy |
| `BurnList.MythBurn.ChangeProfile` | mythplugins/mytharchive/mytharchive/mythburn.cpp:886-928 | confirmed, the whole dialog leaves everything consistent; abandoned, the size bar, if it was right, still is exactly when the sum with the item's size replaced by the one its old values and the lines of the dialog give has the same whole megabytes |
| `BurnList.DialogSize` | mythplugins/mytharchive/mytharchive/mythburn.cpp:1100-1117 | that size, for an item with a duration: the one of the last line |
| `BurnList.DialogProfile` | mythplugins/mytharchive/mytharchive/mythburn.cpp:886-928 | the profile that is left has the name of the one highlighted last, or of the item's own, and is that one once it is confirmed |
| `BurnList.BrowsedSizeWithoutDuration` | mythplugins/mytharchive/mytharchive/archiveutil.cpp:276-298 | for one without a duration that does not use its cuts: its file's size as soon as a line copies it, its old size until then |
| `BurnList.BrowsedSizeOfCuts` | mythplugins/mytharchive/mytharchive/archiveutil.cpp:276-298 | for one without a duration that uses its cuts: its old size, and undefined once a line copies it |
| `BurnList.AbandonedDialogMisleads` | mythplugins/mytharchive/mytharchive/mythburn.cpp:1100-1117 | failing input: a ten-megabyte item for which a one-megabyte profile was highlighted and abandoned; the bar still shows ten |
| `BurnList.MythBurn.AddItems` | mythplugins/mytharchive/mytharchive/mythburn.cpp:971-989 | the list becomes the reconciliation of what it was with the selection picked, and lists, sizes and bar agree |
| `BurnList.MythBurn.SaveConfiguration` | mythplugins/mytharchive/mytharchive/mythburn.cpp:737-785 | one row per item in displayed order |
| `BurnList.MythBurn.LoadConfiguration` | mythplugins/mytharchive/mytharchive/mythburn.cpp:677-726 | new items in row order, profile looked up by name, cut list choice and edited flag reset |
| `BurnList.MythBurn.ShowSaved` | mythplugins/mytharchive/mytharchive/mythburn.cpp:117-120 | a screen that opens shows the saved rows in order, refreshed and consistent |
| `BurnList.ProfileReadBackIff` | mythplugins/mytharchive/mytharchive/mythburn.cpp:728-735 | a profile is found again by its name exactly when it is listed before every other of that name |
| `BurnList.MovingIsSwapping` | mythtv/libs/libmythui/mythuibuttonlist.cpp:641-642 | removing an entry and inserting it one place away is a swap, and keeps the entries |
| `BurnList.MegabytesOfRealisticSize` | mythplugins/mytharchive/mytharchive/mythburn.cpp:219 | below four petabytes the two divisions and the machine word give plain whole megabytes |
| `BurnSession.RunSession` | mythplugins/mytharchive/mytharchive/mythburn.cpp:144-207 | after any run of adding, removing, switching cut lists, moving the cursor, moving items and profile dialogs, items, order, cursor and the sum last drawn are those that a function of the first screen and the actions gives; the buttons are a permutation of the list, every size is current, and the size bar is right exactly when that function's sum and last drawn sum have the same whole megabytes |
| `BurnSession.SizesStayKnown` | mythplugins/mytharchive/mytharchive/mythburn.cpp:144-207 | in the screen that function gives, every item that has a size by its profile, cuts and duration has exactly that size |
| `BurnSession.TotalDefined` | mythplugins/mytharchive/mytharchive/mythburn.cpp:209-248 | with durations throughout, its sum is defined |
| `BurnSession.CurrentIsFresh` | mythplugins/mytharchive/mytharchive/mythburn.cpp:144-207 | the bar was drawn since the sizes last changed, unless a profile dialog was abandoned since |
| `BurnSession.OpenedShown` | mythplugins/mytharchive/mytharchive/mythburn.cpp:63-74 | a screen just opened or refreshed shows its items' values, with current sizes |
| `BurnSession.RunQuiet` | mythplugins/mytharchive/mytharchive/mythburn.cpp:144-207 | over clicks, cursor and item moves and abandoned dialogs, which never draw the bar, it stays right exactly when the sum that the function gives has the whole megabytes of the sum the run began with |
| `BurnSession.Reopen` | mythplugins/mytharchive/mytharchive/mythburn.cpp:63-74 | saving and loading returns the items in displayed order with their details, durations, codecs and named profile, and with cut list choice, edited flag and thumbnails reset |
| `Selecting.GetRecordingList` | mythplugins/mytharchive/mytharchive/recordingselector.cpp:429-465 | erasing in place leaves exactly the recordings whose address does not start with `myth://` and whose group is neither `LiveTV` nor `Deleted`, and lists their titles once each |
| `Selecting.LocalInOrder` | mythplugins/mytharchive/mytharchive/recordingselector.cpp:429-465 | what is left is in its old order |
| `Selecting.Selector.UpdateSelectedList` | mythplugins/mytharchive/mytharchive/recordingselector.cpp:490-515 | the selection opens with the first entry of each listed file name, each once |
| `Selecting.Selector.ToggleSelected` | mythplugins/mytharchive/mytharchive/videoselector.cpp:185-204 | the selection changes by the toggling described in the next two rows |
| `Selecting.ToggledAt` | mythplugins/mytharchive/mytharchive/videoselector.cpp:188-201 | a selected entry is taken off where it stands first, any other entry is appended |
| `Selecting.PickedTwice` | mythplugins/mytharchive/mytharchive/videoselector.cpp:185-204 | picking an entry that is not selected, twice, leaves the selection as it was |
| `Selecting.Selector.Deselected` | mythplugins/mytharchive/mytharchive/recordingselector.cpp:308-327 | the items to drop are exactly those not kept |
| `Selecting.Selector.AlreadyListed` | mythplugins/mytharchive/mytharchive/recordingselector.cpp:332-347 | the entries to pass over are exactly those whose file name is listed |
| `Selecting.Selector.OKPressed` | mythplugins/mytharchive/mytharchive/videoselector.cpp:252-330 | the list becomes its kept items, the same objects in order, followed by new ones; each selected entry that can be added, and whose file name was not kept, has an item with its type, title, subtitle, description, date, time, size, file name and cut list flag |
| `Selecting.AddedOneByOne` | mythplugins/mytharchive/mytharchive/recordingselector.cpp:349-375 | the new items stand in the order of the selection, one for each entry that is neither listed nor gone, and describe it field by field |
| `Selecting.AddedThenDeselected` | mythplugins/mytharchive/mytharchive/recordingselector.cpp:308-352 | an entry that was just added is off the list after it has been taken off the selection and another one is still selected |
| `Selecting.SelectedIsListed` | mythplugins/mytharchive/mytharchive/fileselector.cpp:276-310 | every selected entry that can be added is on the resulting list |
| `Selecting.OwnTypeIsSelected` | mythplugins/mytharchive/mytharchive/videoselector.cpp:258-280 | no item of the selector's type is left that is not selected |
| `Selecting.ReconciledDistinct` | mythplugins/mytharchive/mytharchive/videoselector.cpp:252-326 | distinct file names stay distinct |
| `Selecting.SelectorKeepsDistinct` | mythplugins/mytharchive/mytharchive/recordingselector.cpp:302-376 | the whole use of a selector that offers distinct file names, whatever is picked from it, keeps file names distinct |
| `Selecting.OtherTypesSurviveIff` | mythplugins/mytharchive/mytharchive/recordingselector.cpp:315-326 | items of other types survive exactly when something is selected or there are none |
| `Selecting.EmptySelectionDropsVideo` | mythplugins/mytharchive/mytharchive/recordingselector.cpp:308-327 | failing input: a recording selector confirmed with nothing selected drops a video |
| `Selecting.ReopenIsIdentityIff` | mythplugins/mytharchive/mytharchive/videoselector.cpp:492-515 | opening a selector and confirming it unchanged is the identity exactly when the list is empty, or the opening selection is not and every item of its type is still offered |
| `Selecting.UseSelector` | mythplugins/mytharchive/mytharchive/recordingselector.cpp:302-376 | opening a selector, picking entries and confirming gives the list reconciled with what is then selected, keeping the kept item objects and their order |
| `Selecting.ConfirmUnchanged` | mythplugins/mytharchive/mytharchive/recordingselector.cpp:490-515 | under the condition of `ReopenIsIdentityIff`, and only then, opening and confirming keeps the very same item objects in their order |
| `Selecting.SeededSelects` | mythplugins/mytharchive/mytharchive/recordingselector.cpp:490-515 | the opening selection has exactly the listed file names that are offered |
| `Selecting.SeededInOrder` | mythplugins/mytharchive/mytharchive/recordingselector.cpp:490-515 | it follows the order of the list |
| `Selecting.RemoveEach` | mythplugins/mytharchive/mytharchive/recordingselector.cpp:329-330 | removing value after value leaves exactly the others, in order |
| `Dom.FieldLookup` | mythplugins/mytharchive/mytharchivehelper/main.cpp:1656-1666 | looking up a column among the written fields finds exactly its own element |
| `RecordingArchive.ImportedRowRestores` | mythplugins/mytharchive/mytharchivehelper/main.cpp:1193-1227 | all 35 columns come back, except channel, host and the six with fixed values |
| `RecordingArchive.DocumentLookup` | mythplugins/mytharchive/mytharchivehelper/main.cpp:1118-1127 | the parts the importer finds are those the exporter wrote |
| `RecordingArchive.RowsOfAre` | mythplugins/mytharchive/mytharchivehelper/main.cpp:698-716 | the marks archived for a recording are all those of its channel and time, in order |
| `RecordingArchive.ExportRecording` | mythplugins/mytharchive/mytharchivehelper/main.cpp:383-775 | archives exactly the recording whose file it is, if it has a title, a file name and an entry |
| `RecordingArchive.ImportMarks` | mythplugins/mytharchive/mytharchivehelper/main.cpp:1239-1279 | all archived marks are inserted exactly when the table has the column and none of their keys is taken; a failure leaves a beginning of them |
| `RecordingArchive.ImportRecording` | mythplugins/mytharchive/mytharchivehelper/main.cpp:1104-1331 | an existing recording or a failed copy changes nothing; otherwise one row is added, and success means all marks were |
| `RecordingArchive.CopyRecording` | mythplugins/mytharchive/mytharchivehelper/main.cpp:383-775 | the round trip through an archive: columns restored under the new channel, marks re-keyed to it, and the exact condition for success |
| `RecordingArchive.CopyMarksIff` | mythplugins/mytharchive/mytharchivehelper/main.cpp:698-716 | a copy reported as a success has all the marks of the recording exactly when the tables it was read from have the offset column the query names, or it has none there |
| `RecordingArchive.MarkLostInCopy` | mythplugins/mytharchive/mytharchivehelper/main.cpp:698-716 | failing input: without the column the copy succeeds and the recording's one mark is gone |
| `RecordingArchive.RoomForMarks` | mythplugins/mytharchive/mytharchivehelper/main.cpp:1256-1275 | where no marks of that channel and time exist, a recording's marks fit under the new channel without a key clash |
| `RecordingArchive.FileNameSurvivesIff` | mythplugins/mytharchive/mytharchivehelper/main.cpp:1112-1116 | the restored file's name is the recording's base name exactly when its path is not a single name directly below the root |
| `RecordingArchive.CopyWithFile` | mythplugins/mytharchive/mytharchivehelper/main.cpp:1112-1116 | the file of a copied recording gets the name in its restored row exactly when its path is not a single name directly below the root |
| `RecordingArchive.FileRestoredUnderOtherName` | mythplugins/mytharchive/mytharchivehelper/main.cpp:1112-1116 | failing input: a store that lists a recording as `/1.mpg`, whose file is restored under another name than its restored row has |
| `Paths.BaseNameOfJoined` | mythplugins/mytharchive/mytharchive/archiveutil.cpp:116-124 | the base name of a joined path is the name joined |
| `VideoArchive.NameTable.FindOrInsert` | mythplugins/mytharchive/mytharchivehelper/main.cpp:1477-1509 | finds a name's number or gives it the next; the table only grows and stays free of repeated names |
| `VideoArchive.NameLinks.LinkNames` | mythplugins/mytharchive/mytharchivehelper/main.cpp:1470-1517 | the video gains exactly the names listed, in order, and no other video's names change |
| `VideoArchive.RenameCategory` | mythplugins/mytharchive/mytharchivehelper/main.cpp:1602-1646 | exactly the chosen video gets the category of that name; all others keep the name of theirs |
| `VideoArchive.ImportVideo` | mythplugins/mytharchive/mytharchivehelper/main.cpp:1333-1654 | one video is added, and the names listed go to the first video of its file name |
| `VideoArchive.RestoreAsNew` | mythplugins/mytharchive/mytharchivehelper/main.cpp:1433-1649 | under a new file name the new video has exactly the names listed |
| `VideoArchive.RestoreAnywhere` | mythplugins/mytharchive/mytharchivehelper/main.cpp:1433-1649 | under any file name, the new video has exactly the names listed exactly when the file name is new or none are listed |
| `VideoArchive.GenreGoesToOlderVideo` | mythplugins/mytharchive/mytharchivehelper/main.cpp:1428-1517 | failing input: a drama restored under an existing file name has no genre, and the older video has it |
| `VideoArchive.ExportVideo` | mythplugins/mytharchive/mytharchivehelper/main.cpp:777-1036 | archives a video with its category, country and genre names; a file that is not listed is archived with those of number 0 |
| `VideoArchive.ArchiveHolds` | mythplugins/mytharchive/mytharchivehelper/main.cpp:920-992 | an archive lists exactly the names the video has in its store |
| `VideoArchive.CopyVideo` | mythplugins/mytharchive/mytharchivehelper/main.cpp:1433-1649 | the round trip into another store under a new file name keeps genre, country and category names through renumbering and leaves other videos' names alone |
| `SchemaUpgrade.ArchiveDatabase.PerformActualUpdate` | mythplugins/mytharchive/mytharchive/dbcheck.cpp:34-69 | one attempt at a step: exactly the statements before the first refusal are carried out, and the version is saved only after all of them |
| `SchemaUpgrade.SavedVersionIff` | mythtv/libs/libmythdb/mythdb.cpp:231-269 | a save, which deletes a row and inserts one separately, leaves the version it reports exactly when both were carried out or both refused, or there was nothing to delete |
| `SchemaUpgrade.AttemptTracksIff` | mythplugins/mytharchive/mytharchive/dbcheck.cpp:34-69 | after an attempt at the step that is due the saved version names the step reached exactly when it was not saved at all, or saved as above |
| `SchemaUpgrade.ArchiveDatabase.UpdateDue` | mythplugins/mytharchive/mytharchive/dbcheck.cpp:34-69 | an attempt at the step that is due keeps it true that the saved version has always named the step reached exactly when all saves so far were exact |
| `SchemaUpgrade.ArchiveDatabase.UpgradeArchiveDatabaseSchema` | mythplugins/mytharchive/mytharchive/dbcheck.cpp:71-184 | a run begins at the step the saved version names; an unknown version counts as success; as long as the saved version has always named the step reached, success is the current version; if nothing fails, it succeeds |
| `SchemaUpgrade.RunUpgrades` | mythplugins/mytharchive/mytharchive/dbcheck.cpp:34-184 | over any number of runs with any failed statements and saves, the saved version names the last completed step after every attempt exactly when it was a known one to begin with and every save was exact; then success is the current version and the completed statements are those of one uninterrupted run; saves that do both or neither are exact |
| `SchemaUpgrade.StepsAre` | mythplugins/mytharchive/mytharchive/dbcheck.cpp:78-181 | which versions the five steps start from, and that they have two, one, two, two and one statement |
| `SchemaUpgrade.WholeUpgrade` | mythplugins/mytharchive/mytharchive/dbcheck.cpp:78-181 | an uninterrupted upgrade from nothing carries out eight statements step by step and ends at version 1004 |
| `SchemaUpgrade.UpgradeAfterLostVersion` | mythplugins/mytharchive/mytharchive/dbcheck.cpp:71-104 | after a save that only deleted, the next run starts at the first step again although it had completed, so the trace is no longer orderly |
| `SchemaUpgrade.LostVersion` | mythtv/libs/libmythdb/mythdb.cpp:231-269 | failing input: the second step's save deletes and does not insert |
| `SchemaUpgrade.StaleVersion` | mythtv/libs/libmythdb/mythdb.cpp:231-269 | failing input: the second step's save inserts and does not delete; the old version stays in force |
| `SchemaUpgrade.DroppingFailures` | mythplugins/mytharchive/mytharchive/dbcheck.cpp:34-184 | without its failed attempts the trace is that of one uninterrupted run |
| `SchemaUpgrade.CompletedOnce` | mythplugins/mytharchive/mytharchive/dbcheck.cpp:34-184 | completed steps are strictly ascending, so none completes twice |
| `LogViewing.LogViewer.LoadFile` | mythplugins/mytharchive/mytharchive/logviewer.cpp:235-268 | the lines after the first few, or none when the file is missing or cannot be opened |
| `LogViewing.LogViewer.UpdateClicked` | mythplugins/mytharchive/mytharchive/logviewer.cpp:170-188 | afterwards the display equals the log exactly when it showed a beginning of it; a beginning stays one |
| `LogViewing.LogViewer.ShowLog` | mythplugins/mytharchive/mytharchive/logviewer.cpp:277-289 | switching shows the other log from its start |
| `LogViewing.CatchingUpIff` | mythplugins/mytharchive/mytharchive/logviewer.cpp:249-261 | adding the lines past those shown gives the log exactly when those shown were its beginning |
| `LogViewing.RunViewer` | mythplugins/mytharchive/mytharchive/logviewer.cpp:170-289 | over any mix of appends, updates and switches the files hold what was appended, the log shown is the one last switched to, the display is a beginning of it, and all of it after each update that could read it |

## Left out

- Screens, themes, key translation, focus and popups; keys and buttons are the operations they trigger.
- Decoding, image files and the position bar; the decoder is the assumption above, with a refusal to seek as an input of each seek.
- Machine widths: frame numbers, offsets and sizes are unbounded integers, except for the unsigned word of the size bar; `float` arithmetic is exact. A negative cut duration is not wrapped to an unsigned number.
- ThumbFinding.ThumbFinder.CheckFramePosition: does not model a map with an unpaired last mark, on which the loop reads past the end of the map.
- BurnSession.RunSession: in move mode, still allows the actions of the menus and buttons.
- ArchiveItems.RecalcItemSize: gives a copied item that uses its cuts but has no duration an arbitrary size, because the program converts an undefined quotient.
- Editing an item's title and description.
- Selecting.Selector.UpdateSelectedList: models the recording and video selectors; the file selector compares bare names with full paths before it has listed any file, so its opening selection is not this one.
- Selecting and clearing all entries, directory browsing, and parental levels.
- Printing and parsing XML text, and SQL itself, including its comparison of names without regard to case; tables are sequences and queries are searches.
- RecordingArchive.ExportRecording: takes the channel, credits and rating elements as given, since nothing reads them back.
- ThumbFinding.ThumbFinder.GetThumbImages: takes the seeks made while laying out to succeed, and does not model the key frame read after each of them for its picture, which the next seek replaces; without either, what a refused seek would leave on display is unknown.
- VideoArchive.ExportVideo: takes the written columns of a video as given, for the reason below.
- VideoArchive.ImportVideo: models a video's number, file name, category and linked names, not its other columns, whose copying is plain.
- Copying files, storage directories and artwork; whether a copy succeeded is an input.
- SchemaUpgrade.RunUpgrades: of several rows of the setting the first is taken to be read, and the settings cache is not modelled.
- SchemaUpgrade.ArchiveDatabase.PerformActualUpdate: identifies a statement by its place in its step, not by its text.
- A log that is truncated or replaced while it is shown: covered only by the exact condition of `LogViewing.CatchingUpIff`.
- Burning, ISO images, native export's destination and theme screens, and settings.

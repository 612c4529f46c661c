# Camera firmware: a verified model

The repository replaces the vendor's software on Yi cameras. This project models the parts
of it whose correctness depends on whole runs, loops over shared buffers, or several programs working together, and
proves what they promise. Each module stands for one component:

| module | component |
|---|---|
| `FrameRing` | h264grabber follows a circular table of frame records that the camera process keeps rewriting, across the rewind of the table and the wrap of 16-bit counters and 32-bit time stamps |
| `FrameTags`, `SyncLoss` | what h264grabber's scan finds in the writer's own table, and where it goes on after losing synchronisation |
| `Speaker` | campipe's speaker thread assembles PCM frames from a FIFO, keeps an odd trailing byte, and switches the amplifier |
| `MotionDetector` | campipe's motion thread borrows video frames, debounces motion and maintains a marker file |
| `MotionMarker` | the detector, the kernel's inotify queue and the MQTT daemon's observer, in every interleaving |
| `EventSlots` | the MQTT daemon's three event slots, shared by callbacks and delayed worker threads |
| `EventPairing` | which intervals the slots publish, in terms of the callbacks alone |
| `MotionEvents` | marker and slots put together: from the marker file to the intervals published |
| `ConfigFile` | the MQTT daemon's configuration files: the reader, and the rewriting of one key |
| `CommandHandler` | the daemon's command callback, which calls itself to keep motion and object detection exclusive |
| `ImageFs`, `PathLookup` | the boot simulator's merged file system, its symbolic links, and its two ways to search PATH |
| `SplitTop` | the boot simulator's shell line splitter |
| `ScriptWalk`, `ScriptLines`, `WalkCoverage` | its recursive script walker, what each kind of line does to a walk, and which scripts a walk reaches |
| `FormValues` | proccgi decodes a form value in place and prints it as a shell assignment |
| `Watermark`, `GlyphBitmap` | the snapshot's time stamp: bitmaps converted to glyphs, glyphs blended into the picture |
| `Nv12` | the snapshot's repacking of decoded JPEG planes and the row reader that feeds the encoder |
| `Arithmetic`, `Bytes`, `Wrappers` | division with remainder, the C byte, optional values |

Code that the source writes as loops over mutable state is a method, on a class where the state outlives the call, and
is proved equal to a function of the state before it; the lemmas are about those functions, so they hold of every run.
Programs that run side by side are state machines in which any enabled step may come next. What the kernel, the SDK, the
clock and the file system answer is a parameter of each step.

Points in which the code does something other than its comments or its purpose suggest, each with the exact condition:

- `config_replace` leaves the whole file alone as soon as one line holds the new value already, so a later line for the
  same key, which decides on reading, keeps its old value (`ReplaceSetsTheKey`, `EarlierLineBlocksLaterOne`). This
  carries over to the exclusion of detections: turning one kind on fails to turn the other off exactly in this case
  (`SwitchesOffUnlessBlocked`, `BlockedMotion`).
- h264grabber's scan settles on the largest tag, which is the newest frame's exactly when the tags have not wrapped within
  the table (`ScanOfWriterTable`, with a table in `ScanMissesWrappedCounter`). The audio scan begins with a best time
  stamp of 0, so it reports nothing exactly when the first written slot holds a time stamp of 0 (`ScanFindsNewest`): with
  stamps in steps of 128 ms from 0, until slot 0 has been rewritten, and again at each wrap (`AudioScanIsBlindExactly`).
- h264grabber's count of rejected records survives a rescan, so synchronisation is lost again at the first early look
  (`LosesSyncExactly`). The scan then goes on with the awaited frame exactly when that has the largest tag and the scan sees
  anything (`RescanContinuesExactly`); for the video counter, exactly when nothing has been written since and no wrap lies
  in the table, or when the frame is the last before a wrap (`VideoRescanContinuesExactly`). `FramePassedOver` is a run in
  which a frame is never written out.
- A copy that comes when the writer is a table or more ahead writes out a later frame's record; as long as records of
  different laps differ, the output of a run is in order exactly when that never happens (`InOrderIffPaced`).
- A stop closes the lowest waiting slot. That is the slot of the start before it exactly when no lower slot was waiting
  (`StopClosesLatestStart`). So callbacks can publish an interval other than from a start to the first stop after it exactly
  when two starts in a row have two stops behind them (`SpansExactly`). The callbacks include two starts in a row exactly
  when the marker appears between the observer's watch and its stat and an event has been read since
  (`TwoStartsExactly`), so an interval that is not the marker's can be published exactly when the marker has done so and
  five callbacks have been made (`PublishedIntervalsAreTheMarkers`, with a run in `AppearanceInBetweenSlips`).
- A marker interval is never published exactly when no slot was free at its start or no worker could be created at its end
  (`IntervalPublishedExactly`).
- When watch and stat see different states, the daemon may be told the same state twice, but is never left with the wrong
  one (`RedundantCallbacks`, `DrainingConverges`).
- campipe adds region areas up in 32 unsigned bits and reads the total as a signed number, so at 2^31 motion becomes
  stillness (`HugeTotalIsStillness`); below that a further or larger region never does that (`MoreMotionIsMotion`).
- `realtarget` takes the second path to one place for a cycle; the `www` view of the payload makes that possible without
  a cycle (`ResolveFollowsChain`, `AliasesGoThroughWww`, `AliasTakenForCycle`).
- The two searches of PATH settle on different files exactly when what the lookup finds cannot be executed and something
  further down can (`EffectiveTargetsAgree`).
- The script walk expands a script with the variables and functions of its first visit only. A later visit is collapsed
  and hides scripts exactly when the body, read under that visit's variables and functions, has a first script not met
  yet (`CollapsedVisitHides`, `HiddenExactly`, with a scenario in `CollapsedVisitCanHide`).
- A script contributes the functions of the scripts it sources exactly when it had not been expanded before, or its caller
  or it defines them anyway (`NestedFunctionsImportedOnce`, with a scenario in `SecondCallerLacksFunctions`).
- The comment at src/proccgi/proccgi/src/proccgi.c:142 says empty values are refused; the code accepts them
  (`FieldReachesShell`).
- A horizontal crop takes chroma from half the crop too far right (`CroppedPixel`, `OwnChromaIffFullWidth`).

## Model

| member | source | states |
|---|---|---|
| `FrameRing.SlotIsModulo` | src/h264grabber/h264grabber/h264grabber.c:662-667 | stepping through the table with a rewind at its end puts frame k in slot k modulo the table size |
| `FrameRing.TableHolds` | src/h264grabber/h264grabber/h264grabber.c:621-640 | a slot is empty before its first frame and afterwards holds the newest frame that belongs there |
| `FrameRing.AcceptsVideoIsModular` | src/h264grabber/h264grabber/h264grabber.c:642-644 | the two-window counter test accepts exactly a distance of 1 to 10 modulo 65536 |
| `FrameRing.AcceptsAudioIsModular` | src/h264grabber/h264grabber/h264grabber.c:741-745 | the two-branch time stamp test accepts exactly a distance of at most 256 modulo 2^32 |
| `FrameRing.VideoOrderly` | src/h264grabber/h264grabber/h264grabber.c:642-644 | with counters k modulo 65536 every successor is accepted, and the frame one lap back rejected exactly for tables of at most 65526 slots |
| `FrameTags.AudioOrderly` | src/h264grabber/h264grabber/h264grabber.c:741-745 | time stamps of a clock that never goes back nor round once within a table are orderly if and only if successive ones are at most 256 apart and a table's first and last more than 0 and less than 2^32 - 256 |
| `FrameRing.Grabber.Scan` | src/h264grabber/h264grabber/h264grabber.c:591-615 | the scan loop settles on the record before the first descent, or on none, and leaves the count of misses alone |
| `FrameRing.Grabber.Check` | src/h264grabber/h264grabber/h264grabber.c:621-678 | one look at the following slot: wait, accept, count a miss, or give up at the tenth |
| `FrameRing.Grabber.Copy` | src/h264grabber/h264grabber/h264grabber.c:645-669 | the current slot's record is written out, slot and counter move on, and the misses start again at 0 |
| `FrameRing.ScanFindsNewest` | src/h264grabber/h264grabber/h264grabber.c:591-706 | on any rotation of a strictly increasing run, with gaps, the first-descent scan returns the slot with the maximum, or none if nothing is written, exactly unless it is the audio scan and the first written slot holds time stamp 0; then it reports none |
| `FrameRing.AcceptsExactlyTheSuccessor` | src/h264grabber/h264grabber/h264grabber.c:632-644 | while the writer is less than a table ahead, the record in the following slot is accepted if and only if the next frame has been written, and then it is that frame |
| `FrameRing.StepKeepsInStep` | src/h264grabber/h264grabber/h264grabber.c:621-681 | every step of writer or reader keeps slot, counter and output at the same frame, unless it copies a frame the writer has overtaken |
| `FrameRing.FollowsInOrder` | src/h264grabber/h264grabber/h264grabber.c:621-681 | in every interleaving in which no copy comes when the writer is a table or more ahead, the frames written out are f, f+1, f+2, .., each once, across table rewind and tag wrap; how far ahead the writer gets at other times does not matter |
| `FrameRing.CopyTakesWhatTheSlotHolds` | src/h264grabber/h264grabber/h264grabber.c:645-659 | a copy takes frame `cur` if and only if the writer is less than a table ahead, and a frame at least a lap later otherwise |
| `FrameRing.InOrderIffPaced` | src/h264grabber/h264grabber/h264grabber.c:621-681 | if records of different laps differ, the output of a whole run is in order if and only if no copy came when the writer was a table or more ahead |
| `FrameTags.ScanThenFollow` | src/h264grabber/h264grabber/h264grabber.c:591-681 | after any successful scan the reader is in step with a frame still in the table, so everything up to the next scan comes out in order if, and with distinct laps only if, no copy comes too late |
| `FrameTags.WriterTableRotated` | src/h264grabber/h264grabber/h264grabber.c:591-611 | the table of a writer whose tags are a rising clock kept modulo some power is always a rotated increasing run |
| `FrameTags.ScanOfWriterTable` | src/h264grabber/h264grabber/h264grabber.c:591-706 | for both loops: on the writer's own table the scan settles on the largest tag, which is the newest frame's if and only if the tags have not wrapped within the table and the last one's before the wrap otherwise; the audio scan reports nothing if and only if slot 0 holds time stamp 0 |
| `FrameTags.ScanMissesWrappedCounter` | src/h264grabber/h264grabber/h264grabber.c:591-611 | a table whose scan misses the newest frame: two slots, just after the counter has wrapped |
| `FrameTags.AudioScanIsBlindExactly` | src/h264grabber/h264grabber/h264grabber.c:685-711 | with time stamps in steps of 128 ms from 0 the audio scan reports nothing if and only if the number of the frame in slot 0 is a multiple of 2^25, in particular until the table has been filled for the first time |
| `FrameTags.LargestCounterIsLargestTag` | src/h264grabber/h264grabber/h264grabber.c:591-611 | for the video counter that frame in closed form |
| `SyncLoss.MissesAreRejectedInARow` | src/h264grabber/h264grabber/h264grabber.c:621-678 | over any run of writer and reader the count of misses is that of the looks rejected since the last frame was copied, looks at a record not yet written counting for nothing |
| `SyncLoss.LostAfterTenRejected` | src/h264grabber/h264grabber/h264grabber.c:669-677 | so a run that begins with fewer than ten misses gives up if and only if ten looks in a row have been rejected, with no frame copied between them |
| `SyncLoss.RejectsEarlyLooksExactly` | src/h264grabber/h264grabber/h264grabber.c:632-644 | a look of a reader in step is rejected if and only if it comes before the next frame and the slot still holds the frame of one lap before |
| `SyncLoss.LosesSyncExactly` | src/h264grabber/h264grabber/h264grabber.c:632-678 | a look loses synchronisation if and only if the slot still holds the frame of one lap before and nine looks have failed already, rescans notwithstanding |
| `SyncLoss.RescanContinuesExactly` | src/h264grabber/h264grabber/h264grabber.c:591-706 | for both loops: the scan after a loss goes on with the awaited frame if and only if that has the largest tag in the table and the scan is not stopped by a time stamp of 0 |
| `SyncLoss.VideoRescanContinuesExactly` | src/h264grabber/h264grabber/h264grabber.c:591-611 | for the video counter: if and only if nothing has been written since and no wrap lies in the table, or the frame is the last before a wrap |
| `SyncLoss.LeftoverMissesPassOver` | src/h264grabber/h264grabber/h264grabber.c:669-677 | with nine misses left over from before a scan, one early look loses synchronisation, and if the next frame is written before the scan the awaited one is passed over |
| `SyncLoss.FramePassedOver` | src/h264grabber/h264grabber/h264grabber.c:591-681 | a run from a follower without a miss to that state: ten early looks, a scan, one look, a write, a scan |
| `SyncLoss.FreshFollower` | src/h264grabber/h264grabber/h264grabber.c:591-615 | and for every table size such a follower exists |
| `Speaker.Thread.Receive` | src/campipe/campipe/campipe.c:898-909 | the data branch appends the bytes read, switches the amplifier on first, and sends a completed frame |
| `Speaker.Thread.Flush` | src/campipe/campipe/campipe.c:918-931 | the flush sends the whole samples held with silence behind them and keeps an odd byte although the padding overwrites its place |
| `Speaker.Thread.Tick` | src/campipe/campipe/campipe.c:884-944 | one turn of the loop, whatever poll, read and the device queue answer |
| `Speaker.Thread.Play` | src/campipe/campipe/campipe.c:884-949 | a whole run up to the amplifier's being switched off on the way out |
| `Speaker.ReadingTurnConserves` | src/campipe/campipe/campipe.c:898-908 | a turn that reads neither loses nor reorders a byte between FIFO, frame buffer and device, and every payload is a whole number of samples |
| `Speaker.QuietTurnConserves` | src/campipe/campipe/campipe.c:911-943 | nor does one that flushes, waits or switches the amplifier off |
| `Speaker.RunConserves` | src/campipe/campipe/campipe.c:884-931 | over any run: payloads, pending bytes and FIFO contents together are exactly the bytes that have arrived, in order |
| `Speaker.SamplesArriveIntact` | src/campipe/campipe/campipe.c:889-931 | decoded as 16-bit samples, what was played followed by what is on its way is the arrived stream: no sample is split, dropped or shifted, and less than a frame is pending |
| `Speaker.ReadingSendsWholeFrames` | src/campipe/campipe/campipe.c:889-908 | a turn that reads sends a frame if and only if that completes one, and no silence with it |
| `Speaker.SilenceOnlyWhenStarved` | src/campipe/campipe/campipe.c:889-931 | over any run, what the device is given with its padding, followed by what is held and queued, is the arrived stream if and only if no turn finds nothing to read while two or more bytes are held |
| `Speaker.FifoEmptiesFrameByFrame` | src/campipe/campipe/campipe.c:898-908 | with full reads the FIFO empties at exactly one frame a turn |
| `Speaker.RunKeepsInvariant` | src/campipe/campipe/campipe.c:883-949 | in every run the amplifier is on at each frame sent, off implies at most one byte held, and it is off after the loop |
| `Speaker.IdleCountsQuietTurns` | src/campipe/campipe/campipe.c:911-943 | while the amplifier is on, the counter is the number of quiet turns just passed |
| `Speaker.TurnsOffAfterThreeQuietTurns` | src/campipe/campipe/campipe.c:932-942 | the amplifier goes off in exactly those turns that complete three in a row with no data, fewer than two bytes pending and an empty device queue |
| `Speaker.SettlesWithinFourTurns` | src/campipe/campipe/campipe.c:913-943 | from any reachable state four turns without data on an empty device queue turn the amplifier off |
| `MotionDetector.Thread.Compare` | src/campipe/campipe/campipe.c:644-651 | motion is a successful comparison with at least one region whose areas, added in 32 unsigned bits and read as signed, reach the minimum |
| `MotionDetector.SingleRegion` | src/campipe/campipe/campipe.c:644-651 | one region of area below 2^31 is motion if and only if it reaches the minimum |
| `MotionDetector.RegionsAddUp` | src/campipe/campipe/campipe.c:644-651 | several regions count as ones of their added areas |
| `MotionDetector.RegionsInAnyOrder` | src/campipe/campipe/campipe.c:644-651 | and in any order |
| `MotionDetector.MoreMotionIsMotion` | src/campipe/campipe/campipe.c:644-651 | with a total below 2^31 a further or a larger region never turns motion into stillness |
| `MotionDetector.HugeTotalIsStillness` | src/campipe/campipe/campipe.c:644-651 | a total of 2^31 or more, read as a negative number, does |
| `MotionDetector.NoRegionsNoMotion` | src/campipe/campipe/campipe.c:644-651 | a failed comparison, and one without regions, is never motion |
| `MotionDetector.Thread.Settle` | src/campipe/campipe/campipe.c:653-669 | one comparison's effect on flag, counter, time of last motion and marker |
| `MotionDetector.Thread.Tick` | src/campipe/campipe/campipe.c:630-672 | one pass: no frame, seeding the reference, or a comparison followed by releasing the old reference |
| `MotionDetector.Thread.Detect` | src/campipe/campipe/campipe.c:624-678 | a whole run with the clean-up after the loop |
| `MotionDetector.DebounceRemembers` | src/campipe/campipe/campipe.c:653-669 | what the three variables say about the comparisons so far, by position in the history |
| `MotionDetector.StartsAfterTwoMoves` | src/campipe/campipe/campipe.c:654-661 | motion starts in exactly those comparisons that show motion right after one that did |
| `MotionDetector.StopsAfterThreeQuietSeconds` | src/campipe/campipe/campipe.c:662-668 | it stops in exactly those still comparisons that come at least three seconds after the last one with motion |
| `MotionDetector.TwoRegionsStartMotion` | src/campipe/campipe/campipe.c:644-661 | from rest two successive frames with a region of at least the minimum start motion and create the marker |
| `MotionDetector.FlickerIsIgnored` | src/campipe/campipe/campipe.c:624-673 | a run of frames whose regions add up to less than the minimum leaves the marker alone, however long |
| `MotionDetector.RunDebounces` | src/campipe/campipe/campipe.c:624-673 | the debouncer of a run sees every frame but the first, and nothing else |
| `MotionDetector.LoopHeadHolds` | src/campipe/campipe/campipe.c:624-673 | at each loop head exactly the reference frame is borrowed, never more than two were, starts and stops alternate, and the marker is what the last edge made it |
| `MotionDetector.DetectorLeavesNothingBehind` | src/campipe/campipe/campipe.c:675-678 | after exit no frame is borrowed, edges are in pairs, and only a marker never touched can remain |
| `MotionMarker.Daemon.Recover` | src/mqtt/mqttv4/src/ipc.c:309-314 | the start-up stat makes one start callback if and only if the marker exists |
| `MotionMarker.Daemon.Deliver` | src/mqtt/mqttv4/src/ipc.c:330-341 | a batch of events makes exactly the callbacks for the marker's own events, in order |
| `MotionMarker.MaskDecides` | src/mqtt/mqttv4/src/ipc.c:330-341 | whatever other bits an event of the marker has set, it is a start if it creates it and a stop if it only deletes it; events of other names are neither |
| `MotionMarker.DetectorLosesNothing` | src/campipe/campipe/campipe.c:653-678 | every step of the detector keeps: callbacks made and events queued are together what the stat contributed and every change since the watch |
| `MotionMarker.ObserverLosesNothing` | src/mqtt/mqttv4/src/ipc.c:301-342 | so does every step of the observer, and every event of another file |
| `MotionMarker.RunLosesNothing` | src/mqtt/mqttv4/src/ipc.c:301-342 | so does every interleaving |
| `MotionMarker.UndeliveredEventsMakeUpTheDifference` | src/mqtt/mqttv4/src/ipc.c:301-341 | once the stat is done, folding the undelivered events over the last callback gives the marker's presence, in every interleaving and for a stale marker too |
| `MotionMarker.DrainingConverges` | src/mqtt/mqttv4/src/ipc.c:326-341 | a batch that empties the queue leaves the daemon with the marker's presence, having made the recovered callback and one for every change since the watch |
| `MotionMarker.RedundantCallbacks` | src/mqtt/mqttv4/src/ipc.c:301-341 | a callback repeats the state last reported if and only if watch and stat saw different states and a marker event has been delivered since |
| `MotionMarker.StartedTwice` | src/mqtt/mqttv4/src/ipc.c:301-341 | a run in which stat and event report the same start |
| `MotionMarker.EdgeDelivered` | src/mqtt/mqttv4/src/ipc.c:326-341 | an edge of the detector reaches a daemon with an empty queue in one read |
| `MotionMarker.MarkerFollowsDetector` | src/campipe/campipe/campipe.c:653-678 | in every interleaving the marker is the detector's flag from its first start on, and what was left behind before |
| `MotionMarker.DaemonReportsTheDetector` | src/mqtt/mqttv4/src/ipc.c:301-341 | end to end: without a stale marker, whenever the queue is drained the state last reported is the detector's own |
| `EventSlots.FilesThreads.GetThreadIndex` | src/mqtt/mqttv4/src/mqttv4.c:32-45 | the lowest slot in the given state, or -1 if and only if there is none |
| `EventSlots.FilesThreads.CallbackMotionStart` | src/mqtt/mqttv4/src/mqttv4.c:88-93 | the start callback stamps and claims the lowest free slot, if any |
| `EventSlots.FilesThreads.CallbackMotionStop` | src/mqtt/mqttv4/src/mqttv4.c:161-191 | the stop callback hands the lowest waiting slot to a worker, or frees it if there is no worker to be had |
| `EventSlots.FilesThreads.WorkerStep` | src/mqtt/mqttv4/src/mqttv4.c:57-69 | the message and the three final writes of a worker, as steps that others may come between |
| `EventSlots.WorkerKeepsOwnSlot` | src/mqtt/mqttv4/src/mqttv4.c:47-73 | a worker always finds its own slot running and holding the interval of the slot's current cycle when it publishes |
| `EventSlots.RunKeepsInvariant` | src/mqtt/mqttv4/src/mqttv4.c:32-191 | in every interleaving free slots have zero times, a running slot exactly one live worker, and each slot is claimed, stopped, sent and released in turn, the interval sent being that of its own cycle |
| `EventSlots.ZeroStartUnreachable` | src/mqtt/mqttv4/src/mqttv4.c:174-190 | with a clock that is never zero, a stop never finds a waiting slot without a start time |
| `EventSlots.StopClosesLatestStart` | src/mqtt/mqttv4/src/mqttv4.c:152-192 | a stop closes the slot of the accepted start before it, whatever steps workers have made in between, if and only if no lower slot was waiting |
| `EventSlots.NothingClosedIsLost` | src/mqtt/mqttv4/src/mqttv4.c:47-192 | in every history the interval that a stop with a worker has closed is sent later on or is still the slot's own |
| `EventSlots.ClosedHasWorker` | src/mqtt/mqttv4/src/mqttv4.c:47-73 | and a slot with such an interval has a worker that will send just that |
| `EventSlots.DoubleStartSlips` | src/mqtt/mqttv4/src/mqttv4.c:171-191 | a run with two starts in a row in which the second stop closes the slot of the second start, and the interval 11 to 21 is sent |
| `EventPairing.OnlySpansSent` | src/mqtt/mqttv4/src/mqttv4.c:75-192 | without two starts in a row that two stops follow, every interval sent is that of a start and the first stop after it, however late the workers, however many starts find no slot, and whatever stops come without a start |
| `EventPairing.SlipSends` | src/mqtt/mqttv4/src/mqttv4.c:75-192 | and callbacks that do slip can send the interval from the second of the two starts to the second stop, whatever came before and comes after |
| `EventPairing.SpansExactly` | src/mqtt/mqttv4/src/mqttv4.c:75-192 | so for any callbacks at distinct times: all schedules of the workers send only intervals from a start to the first stop after it if and only if no two starts in a row have two stops behind them |
| `EventPairing.ReportedExactly` | src/mqtt/mqttv4/src/mqttv4.c:75-192 | the interval of a start and the stop after it, no slot having waited before, is sent or about to be if and only if the start found a free slot and the stop a worker |
| `EventPairing.NothingWaitsAfter` | src/mqtt/mqttv4/src/mqttv4.c:75-192 | no slot waits after callbacks without two starts in a row of which the last is a stop |
| `MotionEvents.TwoStartsExactly` | src/mqtt/mqttv4/src/ipc.c:301-341 | the daemon is called for two starts in a row if and only if the marker appeared between watch and stat and an event has been delivered since |
| `MotionEvents.CallsSlipExactly` | src/mqtt/mqttv4/src/ipc.c:301-341 | that being exactly when the marker's callbacks have two starts in a row with two stops behind them |
| `MotionEvents.PublishedIntervalsAreTheMarkers` | src/mqtt/mqttv4/src/mqttv4.c:47-192 | end to end, for every run of detector, kernel and daemon: whatever callbacks and workers do next, every interval published runs from one appearance of the marker, or its presence at the stat, to the removal that came next, if and only if not both the marker appeared between watch and stat and five callbacks have been made |
| `MotionEvents.IntervalPublishedExactly` | src/mqtt/mqttv4/src/mqttv4.c:47-192 | and if the marker did not appear in between, an interval is published or about to be if and only if a slot was free at its start and a worker could be created at its end |
| `MotionEvents.AppearanceInBetweenSlips` | src/mqtt/mqttv4/src/mqttv4.c:47-192 | a run of the whole system that publishes an interval that is not the marker's |
| `ConfigFile.PiecesAreChunks` | src/mqtt/mqttv4/src/config.c:157-171 | lists of pieces that fgets could have cut are cut the same way again when written out |
| `ConfigFile.File.Parse` | src/mqtt/mqttv4/src/config.c:106-126 | the reading loop delivers the settings of every piece, with the last piece repeated when it is complete; a file that did not open gives none |
| `ConfigFile.RepeatedLineIsHarmless` | src/mqtt/mqttv4/src/config.c:117-125 | that repetition does not change the settings read |
| `ConfigFile.File.RewriteLine` | src/mqtt/mqttv4/src/config.c:160-170 | one line: what is written for it, whether it sets the key, and whether to this value |
| `ConfigFile.File.Replace` | src/mqtt/mqttv4/src/config.c:128-189 | the file afterwards and the result code, also when the file or the temporary one cannot be opened |
| `ConfigFile.LineReadsBack` | src/mqtt/mqttv4/src/config.c:161-166 | a written line reads back as its key and value if and only if the value is non-empty, short enough, begins with no white space and has no newline |
| `ConfigFile.CommentsSetNothing` | src/mqtt/mqttv4/src/config.c:119-125 | a line beginning with # sets nothing and is written back as it is |
| `ConfigFile.SpacesBeforeValue` | src/mqtt/mqttv4/src/config.c:121 | spaces and tabs behind the equals sign are passed over |
| `ConfigFile.UpperOfLetters` | src/mqtt/mqttv4/src/config.c:142-143 | keys are compared and written in capitals |
| `ConfigFile.ReplacedPieceByPiece` | src/mqtt/mqttv4/src/config.c:157-172 | rewriting moves no line boundary, so every line of another key and every comment is still there byte for byte |
| `ConfigFile.HoldsUnmoved` | src/mqtt/mqttv4/src/config.c:157-172 | whether some line holds a given value of another key is unchanged |
| `ConfigFile.RewritingSetsTheKey` | src/mqtt/mqttv4/src/config.c:157-172 | reading the rewritten lines gives the old settings with only the key changed, if some line set it |
| `ConfigFile.ReplaceSetsTheKey` | src/mqtt/mqttv4/src/config.c:128-189 | reading after `config_replace` gives the old settings with only the key changed if and only if no line held the value before or the deciding line did |
| `ConfigFile.ReplaceOfSingleKey` | src/mqtt/mqttv4/src/config.c:128-189 | for a key set at most once it always does |
| `ConfigFile.SetAtMostOnceKept` | src/mqtt/mqttv4/src/config.c:157-172 | and every key set at most once stays so |
| `ConfigFile.ReplaceTwice` | src/mqtt/mqttv4/src/config.c:163-183 | a second call with the same value changes nothing |
| `ConfigFile.EarlierLineBlocksLaterOne` | src/mqtt/mqttv4/src/config.c:163-183 | two lines of one key of which the first holds the new value: the file is left alone and still reads as the old value |
| `CommandHandler.Params` | src/mqtt/mqttv4/src/ipc.c:40-86 | key and value of every command; all values can be written and read back |
| `CommandHandler.CommandsComeInPairs` | src/mqtt/mqttv4/src/ipc.c:40-86 | each command that switches something off stores "no", and the next command stores "yes" for the same key |
| `CommandHandler.Handler.CallbackCommand` | src/mqtt/mqttv4/src/mqttv4.c:518-569 | the recursion is at most two deep and the guard restored; a top-level command changes the file and sends messages as specified, a nested one changes just its own key, and a file that cannot be opened stays as it is |
| `CommandHandler.CommandKeepsExclusive` | src/mqtt/mqttv4/src/mqttv4.c:545-568 | from a file that sets each detection at most once and exclusively, any command leads to such a file |
| `CommandHandler.CommandsKeepExclusive` | src/mqtt/mqttv4/src/mqttv4.c:518-569 | so motion and object detection are never both stored as on, after any sequence of commands |
| `CommandHandler.CommandTakesEffect` | src/mqtt/mqttv4/src/mqttv4.c:531-568 | and the detection commanded is stored with the value commanded |
| `CommandHandler.MessagesReplayCommand` | src/mqtt/mqttv4/src/mqttv4.c:518-569 | the file after a command is the one its state messages tell, replacement by replacement |
| `CommandHandler.MessagesTellTheFile` | src/mqtt/mqttv4/src/mqttv4.c:518-569 | every state message sent names the value the file then holds for its key, if the file sets that key |
| `CommandHandler.OffUnlessBlocked` | src/mqtt/mqttv4/src/config.c:163-183 | for every file, turning a detection off fails if and only if an earlier line holds it off and a later one on |
| `CommandHandler.SwitchesOffUnlessBlocked` | src/mqtt/mqttv4/src/mqttv4.c:545-568 | for every file, turning one kind of detection on leaves one of the other kind on if and only if that one is so blocked |
| `CommandHandler.BlockedMotion` | src/mqtt/mqttv4/src/config.c:163-183 | a two-line file in which motion detection is blocked |
| `ImageFs.AliasesGoThroughWww` | scripts/simulate_boot.py:92-115 | two paths map to one place if and only if they are the same after normalisation or one lies below the `www` view and the other is the file's name outside it |
| `ImageFs.DotsInPaths` | scripts/simulate_boot.py:96 | "" and "." make no difference in a path, ".." takes back the component before it, and nothing at the root |
| `ImageFs.PlacesInPayload` | scripts/simulate_boot.py:97-102 | below its directory the payload's tree is the payload's, and not mounted it is not there |
| `ImageFs.PlacesInView` | scripts/simulate_boot.py:103-109 | the www view leads into the payload, or to the rescue pages |
| `ImageFs.PlacesInHome` | scripts/simulate_boot.py:110-111 | the rest of /home is the home tree's |
| `ImageFs.PlacesOutsideHome` | scripts/simulate_boot.py:112-115 | below the run-time directories there is nothing, and the rest is the root file system |
| `ImageFs.RealTarget` | scripts/simulate_boot.py:129-160 | the loop ends on every link graph, cycles included, with the result of the recursive description |
| `ImageFs.LinksFromTheirDirectory` | scripts/simulate_boot.py:147-155 | a relative link is followed from the directory it lies in, an absolute one from the root |
| `ImageFs.RootsAreNoLinks` | scripts/simulate_boot.py:97-109 | the roots of payload and view are named with a slash at their end, where no link is ever seen |
| `ImageFs.ResolveFollowsChain` | scripts/simulate_boot.py:143-160 | where the links end, the loop reports what is there if no place was visited twice on the way, and a dangling link if one was |
| `ImageFs.ResolveIsSound` | scripts/simulate_boot.py:143-160 | a file or archive reported is always one the links end at |
| `ImageFs.ReportedIsThere` | scripts/simulate_boot.py:156-159 | a file reported is there, an archive stands in for a file that is not |
| `ImageFs.EndingChainIsFresh` | scripts/simulate_boot.py:143-146 | without aliases a chain that ends visits no place twice |
| `ImageFs.RealTargetIsTheChainsEnd` | scripts/simulate_boot.py:129-160 | without aliases: a file or archive is reported if and only if following the links ends at it, a dangling link in all other cases |
| `ImageFs.AliasTakenForCycle` | scripts/simulate_boot.py:103-109 | a three-link chain through the `www` view that ends at a file and is reported as dangling |
| `PathLookup.ResolveCmd` | scripts/simulate_boot.py:162-180 | the PATH loop returns what the recursive description says, with the dangling candidates passed over |
| `PathLookup.ResolveMatrix` | scripts/simulate_boot.py:190-233 | the scan loop collects all candidates in order and judges them |
| `PathLookup.LookupAgreesWithScan` | scripts/simulate_boot.py:162-210 | the lookup returns the scan's first real candidate, with exactly the dangling ones before it skipped |
| `PathLookup.EffectiveTargetsAgree` | scripts/simulate_boot.py:162-233 | the lookup finds nothing if and only if the scan does; otherwise the two settle on the same directory and target if and only if what the lookup found is executable or nothing on the PATH is |
| `PathLookup.ExecPosition` | scripts/simulate_boot.py:211-228 | the first executable of the filtered list is the first of all, and its index there is positive if and only if a real candidate precedes it |
| `PathLookup.ScanJudgesShadowsAndDuplicates` | scripts/simulate_boot.py:216-230 | the scan runs the first executable; `shadow` if and only if a real candidate precedes it, `dup` if and only if two executables are different files, busybox apart |
| `PathLookup.ScanWithoutExecutables` | scripts/simulate_boot.py:213-233 | without an executable: the first real candidate and "nonexec", or nothing and "notfound" |
| `PathLookup.ScanOfPath` | scripts/simulate_boot.py:190-233 | the two together for every file system, command and PATH |
| `PathLookup.PermissionDecides` | scripts/simulate_boot.py:182-233 | a file found in a single directory is run if and only if it is executable |
| `PathLookup.ArchiveCanRun` | scripts/simulate_boot.py:182-233 | and an archive in place of the file is taken to be executable |
| `PathLookup.ShadowedUnlessBusybox` | scripts/simulate_boot.py:216-230 | a file that cannot be run shadows an executable one further down, unless the name of that one is busybox |
| `SplitTop.Scan` | scripts/simulate_boot.py:430-450 | the branches of the loop body, in their order |
| `SplitTop.SplitLine` | scripts/simulate_boot.py:425-452 | the loop returns the segments of the recursive description |
| `SplitTop.TokenAgrees` | scripts/simulate_boot.py:430-450 | the loop's jumps agree with a character-by-character reading of quotes, escapes and nesting, and a token is an operator if and only if one begins there |
| `SplitTop.SplitIsExact` | scripts/simulate_boot.py:425-452 | the line is cut exactly at the operators outside quotes, escapes and parentheses |
| `SplitTop.ExactIsUnique` | scripts/simulate_boot.py:425-452 | there is only one such way to cut a line |
| `SplitTop.SplitIsLossless` | scripts/simulate_boot.py:425-452 | segments and terminators together are the line |
| `SplitTop.SegmentsAreFinal` | scripts/simulate_boot.py:425-452 | splitting a segment again gives just that segment |
| `ScriptWalk.Walker.WalkScript` | scripts/simulate_boot.py:584-634 | walking a script terminates and leaves visits, seen scripts, variables and functions as described; a launched script does not touch its caller's |
| `ScriptWalk.Walker.WalkBody` | scripts/simulate_boot.py:613-628 | the actions of a script in order, on shared tables |
| `ScriptWalk.Walker.Perform` | scripts/simulate_boot.py:687-715 | sourcing shares both tables, launching copies the variables and starts without functions |
| `ScriptWalk.Walker.WalkScenario` | scripts/simulate_boot.py:752-770 | the entry points in turn, each with its own copy of the variables |
| `ScriptWalk.WalkExpandsOnce` | scripts/simulate_boot.py:603-607 | however scripts source and launch each other, each is expanded at most once, and exactly those marked as seen |
| `ScriptWalk.SourcingImportsFuncs` | scripts/simulate_boot.py:597-606 | a readable script has been expanded after its walk, and its functions are imported whether or not it had been before; if it had, nothing else happens |
| `ScriptWalk.BodyKeepsFuncs` | scripts/simulate_boot.py:602-628 | functions are never taken away |
| `ScriptLines.LinesActInTurn` | scripts/simulate_boot.py:613-628 | lines act in turn, so the laws of single lines hold anywhere in a script |
| `ScriptLines.AssignmentLineSets` | scripts/simulate_boot.py:678-683 | a line of assignments alone gives each variable its last value in it, expanded under the variables before the line, and does nothing else |
| `ScriptLines.AssignmentLineKeeps` | scripts/simulate_boot.py:678-683 | and leaves all other variables alone |
| `ScriptLines.AssignmentsBeforeCommand` | scripts/simulate_boot.py:676-684 | assignments in front of a command leave no trace |
| `ScriptLines.ExportLine` | scripts/simulate_boot.py:687-691 | `export x=v` sets x to v expanded |
| `ScriptLines.ExportsInTurn` | scripts/simulate_boot.py:687-691 | several words are exported one after the other, each seeing the ones before it |
| `ScriptLines.SourceLine` | scripts/simulate_boot.py:692-697 | `.` and `source` walk the script found with the caller's own variables and functions |
| `ScriptLines.ExecLine` | scripts/simulate_boot.py:698-703 | `exec prog ..` launches prog unless it is a function or no program name |
| `ScriptLines.InterpreterLine` | scripts/simulate_boot.py:704-710 | `sh [options] script ..`, like the other interpreters, launches the first word that is no option, no function and looks like a program name |
| `ScriptLines.ProgramLine` | scripts/simulate_boot.py:711-715 | any other word launches the program of its name |
| `ScriptLines.BuiltinsLeadNowhere` | scripts/simulate_boot.py:711-712 | unless it is a builtin or a function: those lead nowhere |
| `ScriptLines.SubstitutionLaunches` | scripts/simulate_boot.py:617-620 | the command of a substitution is launched in the same way |
| `ScriptLines.LaunchedIsExpanded` | scripts/simulate_boot.py:584-634 | a script launched that can be read has been expanded |
| `ScriptLines.AssignmentReachesLaunch` | scripts/simulate_boot.py:613-628 | a variable set by one line is in force when the next line looks up its program, and the script found so has been expanded |
| `ScriptWalk.NestedFunctionsImportedOnce` | scripts/simulate_boot.py:602-628 | of any script that always sources another, a caller gets the other's functions if and only if the script had not been expanded before, or caller or script define them anyway |
| `ScriptWalk.ScenarioExpandsOnce` | scripts/simulate_boot.py:752-770 | a scenario expands every readable entry point, each script once, and no others |
| `WalkCoverage.ScenarioFollowsEveryExpansion` | scripts/simulate_boot.py:752-770 | in every scenario, whatever an expanded script sources or launches, with the variables and functions the walk has when it comes to that place, has been expanded too, if it can be read |
| `WalkCoverage.ScenarioCloses` | scripts/simulate_boot.py:752-770 | the scripts met are closed under what they source or launch whatever the variables and whichever of the scripts' functions are known |
| `WalkCoverage.LaunchIsUnconditional` | scripts/simulate_boot.py:567-582 | a line that runs a program no script defines as a function is such a launch |
| `WalkCoverage.CollapsedVisitHides` | scripts/simulate_boot.py:603-606 | a visit to an expanded script meets nothing, and expanding it again would meet new scripts if and only if the body has a first one under the visit's variables and functions, a check that looks into no other script's body |
| `WalkCoverage.HiddenExactly` | scripts/simulate_boot.py:603-606 | a walk hides nothing if and only if no collapsed visit in its report has such a first script |
| `WalkCoverage.CollapsedVisitCanHide` | scripts/simulate_boot.py:603-606 | a scenario with a launched script that is never expanded |
| `WalkCoverage.SecondCallerLacksFunctions` | scripts/simulate_boot.py:602-628 | two entry points source one script, which sources another: the first gets the functions of the latter, the second does not |
| `FormValues.SkipLeading` | src/proccgi/proccgi/src/proccgi.c:96-97 | the read pointer comes to the first byte that is not white space |
| `FormValues.DecodeEscape` | src/proccgi/proccgi/src/proccgi.c:103-109 | a percent escape becomes one byte even when its own bytes are overwritten meanwhile |
| `FormValues.DecodeInPlace` | src/proccgi/proccgi/src/proccgi.c:99-112 | the two-pointer pass overwrites no byte still to be read and leaves the decoded string |
| `FormValues.ParseString` | src/proccgi/proccgi/src/proccgi.c:88-119 | the buffer then holds the decoded, trimmed and terminated string, and nothing behind the old end has changed; a null pointer is returned as it is |
| `FormValues.DecodeEncoded` | src/proccgi/proccgi/src/proccgi.c:99-112 | decoding undoes percent-encoding (section 2.1 of RFC 3986, with `+` for space) in front of anything |
| `FormValues.EscapeOfEitherCase` | src/proccgi/proccgi/src/proccgi.c:103-109 | hexadecimal digits of either case decode alike |
| `FormValues.OtherBytesDecode` | src/proccgi/proccgi/src/proccgi.c:99-112 | a plus sign is a space; any other byte, and a percent sign without two digits behind it, stands for itself |
| `FormValues.BlanksInFront` | src/proccgi/proccgi/src/proccgi.c:96-97 | white space in front makes no difference |
| `FormValues.TrimmedExactly` | src/proccgi/proccgi/src/proccgi.c:113-114 | what is trimmed is all the white space at the end |
| `FormValues.ParseEncoded` | src/proccgi/proccgi/src/proccgi.c:88-119 | parsing an encoded string gives it back with trailing white space trimmed |
| `FormValues.PrintEscaped` | src/proccgi/proccgi/src/proccgi.c:160-169 | the value with quotes, backslashes, backquotes and dollar signs escaped |
| `FormValues.PrintAssignment` | src/proccgi/proccgi/src/proccgi.c:146-173 | the name check and the assignment printed, or nothing |
| `FormValues.HandleString` | src/proccgi/proccgi/src/proccgi.c:127-174 | what is printed for any input |
| `FormValues.QuotedReadsBack` | src/proccgi/proccgi/src/proccgi.c:154-171 | read by the double-quote rules (section 2.2.3 of the POSIX Shell Command Language) the printed value is the value, nothing in it is expanded, and the quote ends where it should |
| `FormValues.AnythingPrintedReadsBack` | src/proccgi/proccgi/src/proccgi.c:127-174 | for any input nothing is printed or `FORM_`, a name of letters, digits and underscores that begins with no digit, and a quoted value that the shell reads literally up to the end of the line, being the decoded field's; and which of the two it is |
| `FormValues.FieldReachesShell` | src/proccgi/proccgi/src/proccgi.c:88-174 | end to end: for a valid name and any NUL-free value the shell reads back the value, trailing white space trimmed |
| `Watermark.Mix` | src/snapshot/snapshot/water_mark.c:125-126 | 256 times the blended byte is 256 times the background plus opacity times the way to the foreground, rounded down to a multiple of 256; it lies between the two, so it never leaves the range of a byte |
| `Watermark.MixAtTheEnds` | src/snapshot/snapshot/water_mark.c:125-126 | a fully transparent pixel leaves the background, an opaque one comes within a level of the foreground |
| `Watermark.MixMovesToForeground` | src/snapshot/snapshot/water_mark.c:125-126 | the more opaque, the nearer to the foreground |
| `Watermark.BlendRow` | src/snapshot/snapshot/water_mark.c:123-139 | a row of luma and, on even rows, of chroma is blended in place, and nothing else changes |
| `Watermark.LumaRow` | src/snapshot/snapshot/water_mark.c:124-140 | one more row of luma, in terms of rows and columns of the picture |
| `Watermark.ChromaRow` | src/snapshot/snapshot/water_mark.c:124-132 | one more row of chroma, at the opacity of the even row it belongs to |
| `Watermark.Blend` | src/snapshot/snapshot/water_mark.c:45-50 | the pointer walk over the whole glyph blends exactly the bytes of its rows, in both planes, also when they run over the right end of the picture |
| `Watermark.BlendStrip` | src/snapshot/snapshot/water_mark.c:561-578 | a strip wider than the picture is refused and nothing changed; otherwise the glyphs blended one after the other make one composite, wherever the strip begins |
| `Watermark.GlyphComposes` | src/snapshot/snapshot/water_mark.c:571-576 | blending the next glyph over a composite gives the composite with that glyph |
| `Watermark.CompositeLuma` | src/snapshot/snapshot/water_mark.c:122-141 | the composite's luma byte in picture row top+i and column x+w*n+j is the background moved by that pixel's opacity in 256ths towards the luma of pixel (i, j) of glyph n, rounded down |
| `Watermark.CompositeChroma` | src/snapshot/snapshot/water_mark.c:122-132 | the same for the byte in chroma row top/2+i, towards the glyph's chroma row i, at the opacity of its row 2i |
| `Watermark.CompositeElsewhere` | src/snapshot/snapshot/water_mark.c:122-141 | every byte outside the strip is unchanged |
| `Watermark.TransparentLeavesPicture` | src/snapshot/snapshot/water_mark.c:122-141 | a strip of fully transparent pixels leaves the whole picture as it was |
| `Watermark.ChromaStaysAligned` | src/snapshot/snapshot/water_mark.c:46-47 | with even widths, a chroma byte of the picture is blended with one of its own kind if and only if the strip begins in an even column |
| `GlyphBitmap.ChromaNeverWraps` | src/snapshot/snapshot/water_mark.c:608-615 | for no colour does the chroma computed leave 0..255, so storing it in a byte loses nothing |
| `GlyphBitmap.ColourRecovered` | src/snapshot/snapshot/water_mark.c:608-615 | luma and chroma determine red and blue up to two levels and green up to four |
| `GlyphBitmap.Argb2Yuv420sp` | src/snapshot/snapshot/water_mark.c:600-626 | the pointer walk fills the three planes with the converted bitmap |
| `GlyphBitmap.BytesOfPixel` | src/snapshot/snapshot/water_mark.c:605-616 | the bytes of a pixel are blue, green, red and opacity, in this order |
| `GlyphBitmap.ChromaOfPixel` | src/snapshot/snapshot/water_mark.c:607-620 | chroma byte j of row i comes from pixel j of row 2i, Cb in even columns and Cr in odd ones |
| `GlyphBitmap.DrawnLuma` | src/snapshot/snapshot/water_mark.c:561-626 | from bitmap to picture: each covered luma byte is blended with the luma of the four bytes of its own pixel, at that pixel's opacity |
| `GlyphBitmap.DrawnChroma` | src/snapshot/snapshot/water_mark.c:561-626 | and each covered chroma byte with that of its even-row pixel, Cb in even columns and Cr in odd ones |
| `Nv12.Pack` | src/snapshot/snapshot/jpg2yuv.c:93-108 | the repacking loops give all luma rows followed by all rows of interleaved chroma, for any size; at odd sizes the bytes no loop writes are as malloc left them |
| `Nv12.PackLuma` | src/snapshot/snapshot/jpg2yuv.c:100-102 | the luma rows without their stride padding |
| `Nv12.PackChroma` | src/snapshot/snapshot/jpg2yuv.c:103-108 | the chroma rows, Cb and Cr taking turns, behind the luma |
| `Nv12.RowPositions` | src/snapshot/snapshot/convert2jpg.c:81-82 | luma begins half the crop into its row, chroma the whole crop into its own |
| `Nv12.RowInBounds` | src/snapshot/snapshot/convert2jpg.c:81-91 | at any even crop every index lies inside the buffer |
| `Nv12.ReadRow` | src/snapshot/snapshot/convert2jpg.c:84-91 | three bytes a pixel, the chroma of two neighbours shared |
| `Nv12.YuvToRows` | src/snapshot/snapshot/convert2jpg.c:45-93 | refused crops, and otherwise every scanline of the crop in turn |
| `Nv12.AcceptedExactly` | src/snapshot/snapshot/convert2jpg.c:45-60 | a crop is accepted if and only if it takes as many columns from the left as from the right and as many rows from the top as from the bottom |
| `Nv12.CroppedPixel` | src/snapshot/snapshot/convert2jpg.c:80-93 | which plane bytes a pixel of a crop of a packed picture gets, at any even crop |
| `Nv12.RoundTrip` | src/snapshot/snapshot/convert2jpg.c:80-93 | at full width and any even vertical crop, pixel (x, y) gets exactly Y[y][x], Cb[y/2][x/2] and Cr[y/2][x/2] of the decoded planes |
| `Nv12.OwnChromaIffFullWidth` | src/snapshot/snapshot/convert2jpg.c:80-93 | the reader gives every pixel of every packed picture the chroma of its own 2 x 2 block if and only if nothing is cropped from the width |

## Left out

- Calls into the HiSilicon SDK, ioctls, /dev/mem, libjpeg, ffmpeg and the AAC encoder: their answers are parameters of
  the steps, their effects logs.
- Byte layout of table records and of inotify events: records and events are values, and a record is written in one
  step; torn reads, weak memory ordering and an overflow of the inotify queue do not occur in the model.
- The frame table's writer is another program; it is modelled as filling the slots in order from frame 0 in slot 0.
- The stream bytes a record points to: the model follows which record is copied, not whether its bytes have been
  overwritten meanwhile.
- The observer's callbacks are registered before its first step; the daemon starts the thread first.
- Creating and removing the marker file succeeds.
- EventSlots.FilesThreads.WorkerStep: the list of files in the interval, and a failure to format its times, for which the
  source sends no message.
- MotionEvents.IntervalPublishedExactly: runs in which the marker appeared between watch and stat, for which
  EventPairing.ReportedExactly applies from the next state on in which no slot waits.
- A callback's search for a slot and the update of that slot are one step; the worker's last writes are separate steps.
- MotionDetector.Thread.Compare: region counts are the length of the list of areas, not an 8-bit field.
- ConfigFile.File.Replace: a crash between removing the old file and copying the new one.
- ConfigFile.File.Parse: NUL characters in the file, which would shorten a line for sscanf.
- ScriptWalk.Walker.WalkScript: tokenising (shlex, redirections, leading keywords, here-documents), variable expansion
  and the inversion of image locations are parameters; whether a failure would be critical is report text.
- ImageFs.RealTarget: links in intermediate directories of the host's image trees, and paths that begin with exactly two
  slashes.
- Watermark.Blend: the bytes of the glyph's rows lie in the two planes; the NEON path and the brightness-adjusting blend are
  not compiled or not called.
- Nv12.ReadRow: an odd row width, at which the last pair of pixels does not fit the row.
- Nv12.YuvToRows: an accepted crop of a picture of odd width, and one of a picture of odd height that keeps its last row,
  for which the buffer holds no chroma.
- The image grabber's own ring scan, ADTS resynchronisation, microphone re-blocking, LED control, G.711 tables, network
  and broker code, RTSP plumbing and the web interface: simpler cases of what is modelled, thin wrappers, or tables.

# Verification of the smart tag firmware

A Dafny model of the parts of the nRF54L15 smart tag firmware that keep state or
transform data, with proofs of what they promise.

* **Flash log** (`FlashRing`, `FlashLog`, `FlashPlacement`, `FlashFifo`, `FlashRecovery`,
  `FlashQuery`, `FlashHoles`, `FlashDamage`). A ring of fixed-size records over flash that erases
  whole sectors, with four cursors in RAM that are rebuilt by scanning. `FlashRing`
  says what every operation does to the medium and the cursors, with the behaviour of
  the device (done, failed, cut short, and what was left behind) as an argument;
  `FlashLog` is the class that does it in place. A power cut is an operation whose
  device outcome is a failure, followed by a restart.
* **Slot format** (`Crc16`, `SlotFormat`, `FlashMock`). The 32 bytes of a slot, the
  bit-serial CRC-16 (ITU-T V.41, section 2), and a NOR medium whose writes only clear
  bits.
* **Log download** (`LogDownload`, `DownloadSession`, `DownloadHoles`). The work item that streams the
  log in numbered chunks, and whole downloads with appends, lost notifications and
  retries in between.
* **Sample pipeline** (`SensorMath`, `MotionClassifier`, `ShockDetector`,
  `MotionManager`, `MotionTraces`, `MotionReports`, `Alarms`, `AppState`, `EventQueue`,
  `StatusTraces`, `TagReports`, `AppConfig`). From the integer square root to the bounded
  event queue, the status and the lifetime statistics, over traces from any boot.
  `MotionReports` and `TagReports` say what is reported and counted as a function of the
  history of samples alone, with literal kinds, severities, values and limits.
* **Zigbee reporting** (`ZigbeeReporting`, `ZigbeeReadings`). Report-on-change, and what a gateway knows.
* **Settings migration** (`ConfigMigrate`). Blobs with a schema header and without.

`Modular`, `Latch` and `SmartTag` hold shared arithmetic, the schema of latched events,
and the shared types.

## Reading guide

The main predicates are `FlashPlacement.Lawful` (where records are, under every fault),
`FlashFifo.Holds` (the ring keeps the newest records of a history, no gap),
`FlashRecovery.Recoverable` (it does, or its next append makes it so),
`DownloadSession.Delivering` and `Faultless`, `FlashHoles.Spanning` (what the cursors
take to be live, holes or not), and `ZigbeeReporting.Consistent`. Methods
are proved equal to a function of the old state; the properties are proved of those
functions, over single steps and over whole runs.

Properties that the code does not have in general are stated with the exact condition
under which it has them:

* A failed write leaves the log sound exactly if it left no complete record and,
  mid-sector, no trace (`FailedWrite`).
* A failed eviction that is retried without a restart leaves the log sound exactly if
  it destroyed no record; otherwise the record count is too high, even above the
  capacity (`RetryAfterFailedErase`, `RetryClaimsTooMany`).
* A restart is invisible exactly if a record is left or none was ever written; with a
  single sector a cut eviction restarts the numbering (`PowerCycleInvisible`,
  `SingleSectorForgets`).
* A record is programmed over another one exactly if, mid-sector, an earlier write of
  the same number was reported failed but left its record complete
  (`OverwritesSameNumberOnly`, `RewritesNumber`).
* After a restart a read misses as many of the newest records as there are holes between
  the oldest and the newest, so it is complete exactly if there is none
  (`RestartedRead`): after a cut eviction the holes are those of the sector that was
  being erased (`ReadIsCompleteIffNoHole`), on NOR flash an illegible append over a torn
  slot leaves one (`IllegibleHidesNewest`).
* A download that has ended is complete exactly if it was not cut short by a refusal or
  an unsubscribed client while there were records to send, and the records charged to
  lost notifications are no more than what was asked for beyond what the log had
  (`CompleteIffChargesSpared`): what was charged before a retry is not sent again.
* A chunk's label is right exactly if the record that the stream asks for is there, and
  the next chunk repeats one of its records exactly if a number was passed over on the
  way (`LabelIsRightIffPresent`, `RepeatsIffHole`). In a log without holes that means a
  stream below the oldest record (`GaplessHasNoHole`); after a cut eviction it happens
  to a stream that starts at the oldest record too (`HoleRepeatsAndHides`).
* After a restart the default download from the oldest record brings every record
  exactly if the numbers have no hole (`RestartedDownload`). A request for the whole log
  from below its oldest record, such as from number 0, misses the newest records
  (`StaleDownloadMissesNewest`).
* An event is dropped from the queue exactly if a sample starts a movement that is
  tampering and raises five alarms at once; it is the sensor-fault warning
  (`DroppedIffAllFire`, `OnlyTheFaultWarningCanBeLost`, `FaultWarningIsLostWhenAllFire`).
* The shock and free-fall alarms are lit exactly while their counters exceed what was
  stored at boot, so they agree with the counters shown exactly if nothing was carried
  over or something has happened since (`StatusMirrorsDetectors`,
  `MirrorsUnlessCarried`, `BootHidesStoredShock`).
* A counter reset that overlaps a sample leaves status and machine in agreement exactly
  if the sample was not tampering (`ResetAmidSample`).
* With readings missing, baseline and attributes part exactly if a full report is due -
  by interval, after boot, joining or a forced report - and a missing reading differs
  from the attribute (`AgreesUnlessMissingReadingIsTaken`). Over a run the last
  publication that touched a reading decides (`LastTouchDecides`).
* Framed settings are misread exactly if their blob is 40 bytes long
  (`FramedUnlessLegacyLength`, `FramedStatsUnlessLegacyLength`,
  `ThirtySixByteBodyIsMisread`).

Where code and documents disagree, the code is followed: the comment on the chunk size
speaks of 13-byte sensor records (`src/ble/ble_log.c:16`), the record has 17 bytes, so a
chunk holds 10 of them; requirement FR-L5 (`doc/DESIGN.md:155`) asks for contiguous
numbers, which an illegible append over a torn slot does not give; FR-L4
(`doc/DESIGN.md:154`) asks that no blob be reinterpreted, which the 40-byte length rule
does not meet.

Assumptions about the device: reads succeed; a flash page is a whole number of slots;
a slot that was torn or programmed over either is the complete record meant for it or
fails the validity check (`SlotFormat` proves this for writes that stop in the header or
in the padding and for damage within two adjacent bytes); 32-bit sequence numbers are
not exhausted, so runs have fewer than 2^32 - 3 steps.

## Model

| member | source | states |
|---|---|---|
| FlashPlacement.PlacementLaw | src/storage/flash_manager.c:56-92 | from a partition without records, after any run of appends, log erases and restarts under any device failures and power cuts, record s sits in slot (s-1) mod T, a sector holds one lap only, and the head is where the next number belongs |
| FlashPlacement.OverwritesSameNumberOnly | src/storage/flash_manager.c:151-213 | in every lawful state the slot about to be programmed holds a record if and only if the head is mid-sector on one, and then it is the remains of a failed write of the same number, never an acknowledged record |
| FlashPlacement.AppendSparesTheRest | src/storage/flash_manager.c:151-233 | whatever the device does, an append changes no record outside the sector the head enters, and mid-sector none at all |
| FlashPlacement.AcknowledgedIsDurable | src/storage/flash_manager.c:151-374 | over every run of appends and restarts under any device failures and power cuts, legible or not, an acknowledged record stays in its slot until an append enters its sector or the log is erased |
| FlashPlacement.AppendAnswers | src/storage/flash_manager.c:187-233 | an append acknowledges its record if and only if the erase was not needed or done and the write was done, and then under the next number, in its slot unless the device programmed illegibly over remains; it reports a write error if and only if the write failed after room was made, an erase error if and only if that failed, and then no number is used up |
| FlashPlacement.AcknowledgedSurvives | src/storage/flash_manager.c:187-233 | a record whose append answered with a number is found under that number through every run of device failures, power cuts and restarts, until its sector is entered or the log erased |
| FlashPlacement.EraseLogAnswers | src/storage/flash_manager.c:331-374 | a log erase succeeds if and only if the device erases every sector, and then every slot is erased and the cursors are those of an empty log; otherwise the cursors stay |
| FlashPlacement.EraseSectorsLeaves | src/storage/flash_manager.c:344-359 | a log erase that fails leaves the sectors before erased, that one as the device left it and the rest untouched |
| FlashPlacement.StepLawful | src/storage/flash_manager.c:187-233 | each append, log erase or restart keeps the placement law and uses up at most one number |
| FlashPlacement.BootIsLawful | src/storage/flash_manager.c:56-92 | a scan of any lawful medium gives lawful cursors, above every number found |
| FlashPlacement.ScanFinds | src/storage/flash_manager.c:68-84 | the scan counts the valid slots and finds the slots of the largest and smallest number |
| FlashPlacement.MakeRoomLawful | src/storage/flash_manager.c:151-185 | making room empties exactly the head's sector if it succeeds and never creates a record if it does not |
| FlashPlacement.EraseLogLawful | src/storage/flash_manager.c:331-374 | a log erase that stops at any sector keeps the placement law |
| FlashFifo.PowerCycleInvisible | src/storage/flash_manager.c:56-92 | a restart recomputes the same four cursors, wherever the ring has wrapped, if and only if a record is left or none was ever written |
| FlashFifo.AppendHolds | src/storage/flash_manager.c:187-233 | an append makes history h into h + [record], numbered one more, dropping exactly one sector's worth of the oldest records if the ring was full, if and only if its slot was erased, is being erased, or the medium replaces on write |
| FlashFifo.MakeRoomHolds | src/storage/flash_manager.c:151-185 | eviction drops the oldest sector of a full ring and nothing of any other |
| FlashFifo.AppendWritable | src/storage/flash_manager.c:157-160 | mid-sector the slots still to be written stay erased |
| FlashFifo.FailedWrite | src/storage/flash_manager.c:210-216 | exactly which remains of a failed write leave the log sound |
| FlashFifo.FailedErase | src/storage/flash_manager.c:169-175 | a failed erase is harmless if and only if it destroyed no record |
| FlashFifo.RetryAfterFailedErase | src/storage/flash_manager.c:162-182 | retrying after a failed erase makes a sound log if and only if no record was destroyed |
| FlashFifo.RewritesNumber | src/storage/flash_manager.c:199-216 | after a failed write the next record gets the same number, and is programmed over a complete record if and only if the failed one got there complete, mid-sector |
| FlashRecovery.SelfHealing | src/storage/flash_manager.c:151-185 | with two sectors or more, after any cuts inside the eviction and a restart, the next append gives the very ring it would have given without them |
| FlashRecovery.CutInWriteIsAtomic | src/storage/flash_manager.c:187-233 | after a cut inside the write and a restart the log is as if the append had succeeded or holds the old history |
| FlashRecovery.CrashSafety | src/storage/flash_manager.c:94-233 | over every run of appends, restarts and cuts inside erase or write, the log holds the newest records of the history or its next append makes it so |
| FlashRecovery.ActionRecovers | src/storage/flash_manager.c:94-233 | each such action keeps that, and adds to the history exactly the records that were completely written |
| FlashRecovery.FaultFreeRun | src/storage/flash_manager.c:94-233 | over every run of appends and power cycles without faults, on any medium and with one sector or more, the log holds its history and every slot without a live record is erased |
| FlashRecovery.RetentionLaw | src/storage/flash_manager.c:177-182 | after the k-th append the log keeps k records until it wraps and then T - S + 1 + (k - T - 1) mod S |
| FlashQuery.ReadIsSearch | src/storage/flash_manager.c:235-279 | a computed-seek read returns the first max records that a search of the whole partition finds from start on, oldest first, and visits one slot for each |
| FlashQuery.ReadIsSlice | src/storage/flash_manager.c:235-279 | a read is a slice of the history from start or the oldest record |
| FlashQuery.ReadsBackHistory | src/storage/flash_manager.c:94-279 | end to end, from a blank partition through any cuts: the log reads back as the newest records written |
| FlashQuery.InfoIsExact | src/storage/flash_manager.c:303-329 | count, oldest and newest number reported are those of the history |
| FlashQuery.OldestIsFirst | src/storage/flash_manager.c:281-301 | the oldest record is the first of the history that is still held, and the first that a read of the whole log returns |
| FlashQuery.FailedWriteInvisible | src/storage/flash_manager.c:210-216 | until a restart no read, oldest or info query sees what a failed write has left, a complete record included |
| FlashHoles.ReadSeesSpan | src/storage/flash_manager.c:255-274 | with records missing anywhere, the tail's included, a read returns those that a search finds among the first `used` numbers from the tail on |
| FlashHoles.InfoOfSpan | src/storage/flash_manager.c:317-325 | with records missing anywhere the oldest number reported is the first that the cursors span if and only if its record is there, and 0 otherwise |
| FlashHoles.StaleCursorsRead | src/storage/flash_manager.c:169-175 | with the cursors from before a loss of records a read returns all that are left, in order |
| FlashHoles.FailedErasesRead | src/storage/flash_manager.c:331-374 | so it does after a failed eviction and after a log erase that stopped half way |
| FlashHoles.RestartedRead | src/storage/flash_manager.c:56-92 | after a restart on a medium with any holes, a read and the records it does not get to are together all there are, these are as many of the newest as there are holes before them, and there are none if and only if there is no hole |
| FlashHoles.SearchFindsAll | src/storage/flash_manager.c:68-73 | the scan's count is the number of records that a search by number finds |
| FlashHoles.IllegibleHidesNewest | src/storage/flash_manager.c:157-160 | an illegible append costs its own record as long as the tag runs, and after a restart hides the next one as well, whether or not that one enters a new sector and evicts the oldest |
| FlashDamage.ReadIsCompleteIffNoHole | src/storage/flash_manager.c:255-274 | after a cut eviction and a restart a read returns all records on the medium but the newest, as many as there are holes from the oldest survivor to the end of its sector, and so is complete if and only if there is none |
| FlashDamage.RetryClaimsTooMany | src/storage/flash_manager.c:162-182 | a concrete log of four slots that claims five records after a failed and retried erase |
| FlashDamage.SingleSectorForgets | src/storage/flash_manager.c:86-91 | a concrete single-sector log that restarts its numbering after a cut eviction |
| FlashDamage.EraseLogForgets | src/storage/flash_manager.c:361-366 | if the device erases every sector, a log erase succeeds and leaves the empty history, ready for number 1 |
| FlashLog.FlashLog.Init | src/storage/flash_manager.c:94-148 | the error cases in order, the ring rounded down to whole sectors, and the cursors that the scan of the medium gives |
| FlashLog.FlashLog.ScanMedium | src/storage/flash_manager.c:56-92 | the loop computes the specified scan |
| FlashLog.FlashLog.ClearHeadSector | src/storage/flash_manager.c:151-185 | counts, erases and adjusts as specified, for any device outcome |
| FlashLog.FlashLog.AppendRecord | src/storage/flash_manager.c:187-233 | the answer, the new medium and cursors are those specified, for any device outcome |
| FlashLog.FlashLog.ReadRecords | src/storage/flash_manager.c:235-279 | the loop returns the specified records |
| FlashLog.FlashLog.GetOldest | src/storage/flash_manager.c:281-301 | of a log that keeps the newest records of a history without a gap, the oldest record of that history still held, which is also the first that a read of the whole log returns |
| FlashLog.FlashLog.ReadInfo | src/storage/flash_manager.c:303-329 | record size, readiness and the figures of the ring, all 0 before initialisation |
| FlashLog.FlashLog.EraseAll | src/storage/flash_manager.c:331-374 | succeeds if and only if the device erases every sector; medium and cursors afterwards as specified |
| Crc16.ComputeCrc | tests/unit/stubs/crc16.c:7-23 | the nested loops compute the CRC function |
| Crc16.CrcLinear | tests/unit/stubs/crc16.c:7-23 | the difference of two CRCs is the CRC of the difference |
| Crc16.WindowDetected | tests/unit/stubs/crc16.c:7-23 | equally long inputs that differ only within two adjacent bytes never share a CRC |
| Crc16.CheckValue | tests/unit/stubs/crc16.c:7-23 | the published check value of the algorithm, 0x29b1 for the digits 1 to 9 |
| SlotFormat.DecodeEncode | src/storage/flash_manager.c:34-43 | the slot image of a record is read back as that number and record |
| SlotFormat.TornInPaddingRejected | src/storage/flash_manager.c:203-213 | a slot write that stopped anywhere in the zero padding is rejected |
| SlotFormat.TornInHeaderRejected | src/storage/flash_manager.c:40-43 | so is one that stopped inside the header |
| SlotFormat.CorruptedBodyRejected | src/storage/flash_manager.c:34-43 | a stored slot damaged within two adjacent bytes of its body is valid only if it is not damaged |
| SlotFormat.CorruptedHeaderRejected | src/storage/flash_manager.c:34-43 | a stored slot with any damage to its magic or CRC and none behind is rejected |
| SlotFormat.SlotLayout | src/storage/flash_manager.c:199-208 | which bytes of a slot hold the magic, the CRC of the rest, the number, the record and zeros |
| FlashMock.FlashMock.Read | tests/unit/stubs/flash_mock.c:50-59 | copies the bytes, or refuses a range outside the medium |
| FlashMock.FlashMock.Write | tests/unit/stubs/flash_mock.c:61-76 | ands the bytes in and leaves all others, or refuses |
| FlashMock.FlashMock.Erase | tests/unit/stubs/flash_mock.c:78-86 | sets the range to ones and leaves all others, or refuses |
| FlashMock.BuildSlot | src/storage/flash_manager.c:203-208 | the buffer filled step by step is the slot image |
| FlashMock.WriteMatchesRing | src/storage/flash_manager.c:203-213 | programming an erased slot, complete or cut in header or padding, has the outcome that the ring model gives it |
| FlashMock.SameRecordCompletes | tests/unit/stubs/flash_mock.c:71-73 | writing the same record over its torn slot completes it even on NOR flash |
| LogDownload.LogStream.RunWork | src/ble/ble_log.c:53-133 | stream and chunk after one run are those specified |
| LogDownload.LogStream.HandleRequest | src/ble/ble_log.c:143-184 | abort, the error cases in order, and the stream a start leaves |
| LogDownload.LogStream.Abort | src/ble/ble_log.c:206-214 | ends the stream and keeps its position |
| LogDownload.ServeRequest | src/ble/ble_log.c:53-184 | a client that asks for log 0 gets only chunks labelled 0 with records of the event log, and for log 1 of the sensor log, over any runs of the work item |
| DownloadSession.ExactDownload | src/ble/ble_log.c:53-133 | with every notification taken and no torn slot programmed over illegibly the client receives start, start+1, ... up to what it asked for or the log had, in chunks 0, 1, 2, ... with right labels, and exactly the final one is marked last |
| DownloadSession.DownloadIsPrefix | src/ble/ble_log.c:77-132 | under any radio answers and legible appends that evict nothing undelivered, what is delivered is a gap-free, duplicate-free prefix with right labels and indices |
| DownloadSession.DownloadConserves | src/ble/ble_log.c:77-132 | whatever log and radio do, delivered + charged + remaining is what was asked for, and the stream ends within one run more than that |
| DownloadSession.DownloadEnds | src/ble/ble_log.c:77-132 | the same bound for a download interleaved with appends |
| DownloadSession.CompleteIffChargesSpared | src/ble/ble_log.c:71-132 | whatever radio and client do, a download that has ended has delivered the lesser of what was asked for less the charges and what the log had, unless it was cut short; it is complete if and only if it was not and the charges are no more than what was asked for beyond what the log had |
| DownloadSession.ChargedByFailures | src/ble/ble_log.c:101-119 | records are charged exactly by runs that fetch them and cannot send them |
| DownloadHoles.LabelIsRightIffPresent | src/ble/ble_log.c:79-86 | on a log with any holes a chunk carries the records found from the stream's position on, and is labelled with the number of the first one if and only if the record asked for is there |
| DownloadHoles.RepeatsIffHole | src/ble/ble_log.c:99-132 | the stream's next position is past the chunk's last record, and the next chunk repeats none of it, if and only if no number up to that record is missing |
| DownloadHoles.GaplessHasNoHole | src/storage/flash_manager.c:248-253 | in a log that holds a history without a gap the numbers present are those from the oldest to the newest |
| DownloadHoles.WholeDownload | src/ble/ble_log.c:53-133 | a download of a log with any holes that asks for enough brings exactly the records that are there from its start to the end of the cursors' span |
| DownloadHoles.RestartedDownload | src/ble/ble_log.c:171-174 | after a restart the default request from the oldest record on brings every record on the medium if and only if the numbers have no hole |
| DownloadHoles.CutLeavesHole | src/storage/flash_manager.c:169-175 | a concrete power cut that leaves a full log of four with a hole after its oldest record |
| DownloadHoles.HoleRepeatsAndHides | src/ble/ble_log.c:77-132 | the default download of that log sends one record under a wrong number and again, and never the newest |
| DownloadSession.StaleDownload | src/ble/ble_log.c:79-132 | a whole download from below the oldest record sends exactly the records from the oldest one up to start + count, or to the end of its first chunk if that is further, some of them repeatedly |
| DownloadSession.StaleDownloadMissesNewest | src/ble/ble_log.c:173-174 | asked for the whole log from there, it misses exactly as many of the newest records as the start was too low, sparing the first chunk |
| DownloadSession.RequestBegins | src/ble/ble_log.c:165-176 | an accepted request begins a download of the log that was asked for; with no limit and from the oldest record it asks for the whole log |
| SensorMath.Isqrt32 | src/sensors/sensor_manager.c:30-47 | sixteen steps give the floor of the square root of every 32-bit value, and no shift overflows |
| SensorMath.FloorSqrtCorrect | src/sensors/sensor_manager.c:30-47 | the specified root is the floor of the square root |
| SensorMath.ApplyMagnitude | src/sensors/sensor_manager.c:79-84 | the magnitude written is the root of the sum of squares, when that fits an int32_t |
| SensorMath.MagnitudeBoundsAxes | src/sensors/sensor_manager.c:79-83 | no axis exceeds the magnitude |
| SensorMath.SumFits | src/sensors/sensor_manager.c:79-81 | axes up to 26754 mg cannot overflow the sum |
| MotionClassifier.OrientationIsDominant | src/motion/motion_classifier.c:22-44 | the orientation is the direction of the largest reading above half a g, unknown exactly if there is none |
| MotionClassifier.OrientationExactly | src/motion/motion_classifier.c:22-44 | each orientation by comparisons of the axes, ties going to z before y before x |
| MotionClassifier.ActiveExactly | src/motion/motion_classifier.c:11-20 | active is heavier or lighter than one g by more than the threshold |
| MotionClassifier.FacingAndFallingIsCalm | src/motion/motion_classifier.c:11-44 | a sample that faces somewhere and is below 900 mg is within 499 mg of one g |
| ShockDetector.ShockDetector.Process | src/motion/shock_detector.c:25-66 | latches, peak and result after a sample are those specified |
| ShockDetector.ReportedIff | src/motion/shock_detector.c:25-66 | over any trace a shock is reported of a sample if and only if it is an impact and every earlier impact was followed, before it, by a sample within 300 mg of one g; a free fall likewise with its own re-arming; and a reported shock is as hard as its sample |
| ShockDetector.ShockRearms | src/motion/shock_detector.c:47-65 | between two reported shocks lies a sample within 300 mg of one g |
| ShockDetector.FreeFallRearms | src/motion/shock_detector.c:36-45 | between two reported free falls lies a sample more than 300 mg above the threshold |
| ShockDetector.PeakIsHardest | src/motion/shock_detector.c:48-53 | no excursion above its threshold exceeds the peak, and one of them attains it |
| MotionManager.MotionManager.ProcessSample | src/motion/motion_manager.c:50-134 | machine, result and the marks in the sample afterwards are those specified |
| MotionManager.MotionManager.ClearTamper | src/motion/motion_manager.c:156-159 | clears the flag and nothing else |
| MotionTraces.MotionClosedForm | src/motion/motion_manager.c:83-104 | after any trace in time order the tag is moving exactly if its latest sample is less than the timeout after the last active one |
| MotionTraces.StartsAndStopsAlternate | src/motion/motion_manager.c:83-104 | START and STOP strictly alternate, START first, whatever the timestamps |
| MotionTraces.MovementBudget | src/motion/motion_manager.c:92-102 | the movement total is the sum of the STOP durations, and with one timeout per STOP never exceeds the elapsed time |
| MotionTraces.TamperIsSound | src/motion/motion_manager.c:65-129 | a tamper event implies that all motion is 300 s plus the timeout old, an excursion above the shock threshold on this sample, and a changed facing |
| MotionTraces.TamperRearms | src/motion/motion_manager.c:122-124 | between two tamper events the flag was cleared |
| MotionReports.ReportedByHistory | src/motion/motion_manager.c:50-134 | over any trace in time order, exactly when a sample is reported as START, STOP with its duration, shock with its force, free fall, turn and tampering, by the samples before it alone |
| Alarms.EvalAlarms | src/app/app_alarms.c:20-111 | flags and event array after an evaluation are those specified |
| Alarms.EventBuffer.Emit | src/app/app_alarms.c:6-18 | appends unless the array is full |
| Alarms.EvaluateMeans | src/app/app_alarms.c:35-110 | exactly the alarms raised are set, exactly those cleared dropped, motion alarms untouched, and one event reported for each new alarm and none for others |
| Alarms.ReportedExactly | src/app/app_alarms.c:35-110 | the events of an evaluation as a list, each with kind, severity and value, by the readings, the limits and the flags before |
| Alarms.FlagsExactly | src/app/app_alarms.c:35-108 | each alarm flag after an evaluation, by the readings and limits |
| Alarms.MaskBits | src/app/app_alarms.c:100-108 | each bit of a sensor fault's value says whether that sensor has delivered |
| Alarms.EventsAreRisingEdges | src/app/app_alarms.c:35-110 | over any trace an alarm has as many events as rising edges |
| Alarms.AlarmRearms | src/app/app_alarms.c:35-108 | between two events of an alarm lies a sample that clears it |
| Alarms.BatteryRearms | src/app/app_alarms.c:85-98 | between two battery warnings the battery was 100 mV above the threshold |
| Alarms.TemperatureRearms | src/app/app_alarms.c:35-57 | between two high-temperature or two low-temperature alarms the temperature was inside the window |
| AppState.AppState.QueueEvent | src/app/app_state.c:48-59 | appends unless the queue is full |
| AppState.AppState.ApplyMotionResult | src/app/app_state.c:203-253 | status, statistics and queue after a motion result are those specified |
| AppState.AppState.CheckThresholds | src/app/app_state.c:173-200 | flags, fault count, lowest battery and queue after the thresholds are those specified |
| AppState.AppState.DrainPending | src/app/app_state.c:154-170 | empties the queue, raises its events in order and counts them |
| AppState.AppState.ProcessSensorData | src/app/app_state.c:255-289 | motion first, then thresholds; the events raised are the first eight of all the sample's events, and status and statistics are those specified |
| AppState.AppState.ResetCounters | src/app/app_state.c:398-425 | clears counters in status and statistics, tamper and the motion alarms, nothing else |
| EventQueue.NoAlarmEventLost | src/app/app_state.c:36-59 | for every sample and detector state all alarm-severity events are raised, in order |
| EventQueue.OnlyTheFaultWarningCanBeLost | src/app/app_state.c:36-59 | with a validated configuration and a true magnitude at most one event is dropped, the sensor-fault warning, the last of nine |
| EventQueue.FaultWarningIsLostWhenAllFire | src/app/app_state.c:48-53 | samples on which all nine fire |
| EventQueue.AtMostFourMotionEvents | src/motion/motion_manager.c:72-129 | shock, free fall and turn never come together, so a sample has at most four motion events, and four if and only if it starts a movement and is tampering |
| EventQueue.EvaluateCounts | src/app/app_alarms.c:35-110 | an evaluation reports as many events as alarms are newly raised, the two temperature alarms counting once |
| EventQueue.DroppedIffAllFire | src/app/app_state.c:36-59 | an event is dropped if and only if the sample starts a tampering movement and newly raises a temperature alarm and all four warnings |
| AppState.AppState.constructor | src/app/app_state.c:61-82 | the counters go on from the stored statistics, the alarms start cleared |
| StatusTraces.StatusMirrorsDetectors | src/app/app_state.c:61-253 | over any run of samples and resets from any boot the status repeats the machine's state, and the shock and free-fall alarms are lit exactly while their counters exceed what was stored, or 0 after a reset |
| StatusTraces.MirrorsUnlessCarried | src/app/app_state.c:69-75 | the alarms agree with the counters shown if and only if each is lit or has nothing carried over from before the boot |
| StatusTraces.MirrorsFromCleanBoot | src/app/app_state.c:69-75 | they agree over every run if and only if no shock and no free fall was stored |
| StatusTraces.BootHidesStoredShock | src/app/app_state.c:69-75 | a concrete boot with a shock counted and no alarm lit |
| StatusTraces.ResetAmidSample | src/app/app_state.c:255-419 | however a counter reset and a sample interleave around the lock, status and machine agree afterwards if and only if one came wholly before the other or the sample was not tampering |
| StatusTraces.CountersSurviveRestart | src/app/app_state.c:66-75 | over any run the counters of status and statistics agree, so that a boot from what was flushed shows the same counters and cleared alarms |
| StatusTraces.CountersCountEvents | src/app/app_state.c:184-253 | the shock, free-fall and fault counters count the events of their kind, dropped ones included, and the event count those raised |
| TagReports.MotionEventsExactly | src/app/app_state.c:203-253 | the events of a motion result as a list, each with kind, severity and value |
| TagReports.RaisedByHistory | src/app/app_state.c:173-289 | over any run from any boot, all events that a sample gives rise to, in order and with kind, severity and value, as conditions on the samples and resets before it alone; the first eight are raised |
| TagReports.MarksByHistory | src/motion/motion_manager.c:50-134 | which marks a sample has for its history record afterwards: those it came with, and by the history of samples alone the state and what was reported of it |
| TagReports.BooksByHistory | src/app/app_state.c:61-253 | over any run from any boot, every counter of status and statistics is what was stored, or 0 after a reset, plus what the history says was reported, modulo its width; hardest shock and lowest battery are the extremes of the history, a battery reading of 0 erasing what was before it |
| TagReports.ThresholdAlarmByHistory | src/app/app_state.c:173-187 | over any run a threshold alarm is lit if and only if a sample has raised it and no later one cleared it; no counter reset changes that |
| TagReports.MotionAlarmsByHistory | src/app/app_state.c:203-253 | over any run the shock and free-fall alarms are lit if and only if one was reported since boot or the last reset, the tamper alarm if and only if tampering is pending |
| TagReports.EventCountByHistory | src/app/app_state.c:154-170 | the event count is what was stored plus at most eight events of each sample since |
| AppConfig.AppConfig.Set | src/app/app_config.c:119-138 | a configuration out of range changes nothing, any other is in force for the motion manager too |
| AppConfig.ValidatedExactly | src/app/app_config.c:32-86 | a configuration is accepted if and only if each of twelve settings is in its range and the temperature window is not empty |
| AppConfig.DefaultsAreValid | src/app/smart_tag.h:222-244 | the defaults are acceptable |
| AppConfig.AppConfig.EffectiveInterval | src/app/app_config.c:167-180 | the interval over the mode's divider, rounded down, at least a second |
| ZigbeeReporting.Reporter.EvaluateSample | src/zigbee/zigbee_reporting.c:45-126 | the groups reported are those specified |
| ZigbeeReporting.Reporter.CommitReport | src/zigbee/zigbee_reporting.c:128-171 | the new baseline is the one specified |
| ZigbeeReporting.Reporter.Force | src/zigbee/zigbee_reporting.c:40-43 | only the validity of the baseline is lost |
| ZigbeeReporting.Reporter.UpdateClusters | src/zigbee/zigbee_clusters.c:206-310 | the attributes pushed are those specified |
| ZigbeeReporting.Reporter.PublishSample | src/zigbee/zigbee_manager.c:71-101 | once joined: evaluate, update and commit, or nothing |
| ZigbeeReporting.GatewayTracks | src/zigbee/zigbee_reporting.c:45-171 | after every publication of complete samples, under any configurations and forced reports, attributes agree with the baseline, readings are strictly within max(1, delta), battery and trigger fields equal, and the last report is less than the interval old |
| ZigbeeReporting.UpdateExactly | src/zigbee/zigbee_clusters.c:206-310 | each attribute after an update in the units of its cluster, or as it was if not reported or not valid |
| ZigbeeReporting.PressureUnits | src/zigbee/zigbee_clusters.c:230-236 | whole kilopascals, rounded towards zero, if and only if they fit the attribute |
| ZigbeeReporting.QuietWhenNothingMoved | src/zigbee/zigbee_reporting.c:58-125 | nothing is sent while nothing has moved by its delta |
| ZigbeeReporting.AgreesUnlessMissingReadingIsTaken | src/zigbee/zigbee_reporting.c:45-149 | with readings missing, baseline and attributes agree if and only if no full report was due - the first and every forced one included - or the missing readings equal the attributes |
| ZigbeeReporting.HeartbeatTakesMissingReading | src/zigbee/zigbee_reporting.c:119-137 | a concrete heartbeat that takes a missing temperature into the baseline |
| ZigbeeReadings.AgreesOnAll | src/zigbee/zigbee_reporting.c:13-31 | attributes agree with the baseline if and only if they do on the tag fields and on each reading |
| ZigbeeReadings.LastTouchDecides | src/zigbee/zigbee_reporting.c:45-171 | over any run with any readings missing, baseline and attribute agree on a reading if and only if it was valid in the last publication that touched it, or equal to the attribute |
| ZigbeeReadings.UntouchedStays | src/zigbee/zigbee_reporting.c:58-90 | a reading that has parted stays so while no report touches it, as when valid readings are within the delta of the wrong baseline |
| ZigbeeReadings.HealsWithFullReport | src/zigbee/zigbee_reporting.c:119-149 | it agrees again with the first valid reading of a full report |
| ConfigMigrate.EncodeSettings | src/storage/config_migrate.c:22-37 | header and body in the caller's buffer, or 0 if it is missing or too small |
| ConfigMigrate.TagConfigDecode | src/storage/config_migrate.c:51-83 | the specified image or an untouched buffer, with no byte read past the blob |
| ConfigMigrate.TagStatsDecode | src/storage/config_migrate.c:94-145 | the same for statistics, counter by counter for the headerless layout |
| ConfigMigrate.RoundTrip | src/storage/config_migrate.c:22-153 | decoding an encoded configuration or statistics value gives it back |
| ConfigMigrate.ConfigRoundTrip | src/app/smart_tag.h:194-244 | a configuration laid out field by field, stored and loaded gives back every field, negative limits included, and the default image unpacks to the defaults that an invalid configuration is replaced with |
| ConfigMigrate.RefusedExactly | src/storage/config_migrate.c:60-80 | a blob is refused if and only if it has not 40 bytes and is shorter than its header or than the body that it announces, or its schema is not 1 |
| ConfigMigrate.ReadBytewise | src/storage/config_migrate.c:39-83 | every byte loaded from a well-framed blob: the body's as far as it goes, the default's from there on |
| ConfigMigrate.MigrationKeepsFields | src/storage/config_migrate.c:39-83 | a body of any length with anything after it decodes so that fields wholly stored keep their value and fields wholly missing take their default, unless the blob has 40 bytes |
| ConfigMigrate.FramedUnlessLegacyLength | src/storage/config_migrate.c:60-64 | any framed configuration is decoded as its body over the defaults if and only if the blob does not have 40 bytes |
| ConfigMigrate.FramedStatsUnlessLegacyLength | src/storage/config_migrate.c:104-126 | the same for statistics |
| ConfigMigrate.ThirtySixByteBodyIsMisread | src/storage/config_migrate.c:60-64 | a concrete body whose sampling interval comes back as the schema number |
| ConfigMigrate.LegacyConfigLoads | src/storage/config_migrate.c:60-64 | a headerless configuration loads as it is |
| ConfigMigrate.LegacyStatsKeepCounters | src/storage/config_migrate.c:105-126 | headerless statistics keep all twelve counters and get epoch 0 |

## Left out

- Reads that fail on the device, bit rot, and pages that are not a whole number of slots.
- Exhaustion of the 32-bit sequence numbers; the counters wrap in the model as in the code, the runs proved about are shorter.
- FlashMock.WriteMatchesRing: does not cover a write cut inside the record's own bytes, where acceptance would take a CRC collision that no proof can exclude.
- SensorMath.ApplyMagnitude: starts from the axes in mg; the conversion from floating point is not part of this model, and a sum beyond int32_t is undefined in the source.
- DownloadSession.ExactDownload: limits a request to 65535 records, the largest a request can name and more than either partition holds, so that the 16-bit chunk index does not wrap.
- ZigbeeReporting.Reporter.UpdateClusters: leaves out the attributes that are sent along but never trigger a report (maximum shock, durations, event and log counts, mode, interval, boot epoch).
- ZigbeeReporting.Reporter.EvaluateSample: differences are unbounded integers; a pressure difference beyond the width of `long` is not modelled.
- AppState.AppState.ProcessSensorData: leaves out the sensor history record, LEDs, subscribers and the hourly flush; the motion step, which the source runs before taking the lock, is merged with the rest, and what a reset meanwhile does is StatusTraces.ResetAmidSample.
- AppState.AppState.DrainPending: leaves out the event log, the LED and the subscribers.
- AppState.AppState.ResetCounters: leaves out the LED and the flush.
- DownloadSession.StaleDownload: the log does not change during the download and every notification is taken.
- DownloadHoles.WholeDownload: the same.
- DownloadSession.DownloadIsPrefix: appends do not evict what is still to be sent, and do not come out illegible over a torn slot.
- StatusTraces.StatusMirrorsDetectors: leaves out runs that exhaust a 32-bit counter, which wraps.
- MotionReports.ReportedByHistory: samples come in time order, and the motion configuration stays the same over a run.
- TagReports.BooksByHistory: the same; the thresholds of the other alarms may change with every sample.
- AppConfig.AppConfig.Set: leaves out saving to settings storage and the LED and power managers.
- Alarms.EvalAlarms: the caller's pointers are never null; bit masks are sets.
- The log's mutex and the work queue: each locked section or work run is one step; a sample is one step too, although its motion part runs unlocked.
- ble_log_get_info and the GATT handlers: field copies and length checks around the modelled calls.
- BLE and Zigbee stacks, commissioning, OTA, the BLE service window, power management, LEDs, the button, the watchdog, sensor drivers and hardware validation.
- config_storage.c, event_log.c and sensor_log.c: thin wrappers around the modelled modules.
- Zephyr's own crc16_ccitt is not part of this model; the host stub is.

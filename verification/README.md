# ECCD SmartTrack: live attendance, pickup, accounts, codes and faces

A Dafny model of the server behind ECCD SmartTrack and of its face-recognition service, with proofs of
what they promise over whole runs. `dafny verify dfyconfig.toml` checks everything.

## What is modelled

* **Live attendance and pickup** (`SchoolTime`, `Signals`, `PickupPolicy`, `Attendance`, `Requests`,
  `Runs*`, `WatchRun`, `AttendanceStore`, `LateArrival`, `BulkSave`, `AttendanceImport`). The tables, every
  request that writes them, and the periodic pickup watch. The watch is cut at the points where it
  waits for the database: reading sessions, reading records, settling one center's session, looking at
  the hardware, reading signals and prompts, acting on one student. Between any two of these anything
  else may happen: sightings, manual saves, answers, pickups, Start, Stop, the stale cleanup, camera
  frames, failures, a restart. A run is any sequence of such events on one clock that does not go back.
  `Store` is the same system as an object that its methods change step by step; each method is proved
  equal to its function, and a whole uninterrupted watch to the small steps taken to the end. `Requests`,
  `RunsHardware`, `RunsCenters` and `RunsDecisions` say what these functions mean: what each request and
  each step of the watch leaves in every row, and when, over the events of the run.
* **Concurrent recording** (`WorkerPool`, `BoundedWorkers`, `Gateway`, `Frames`). Worker loops around
  one shared counter, interleaved at every database call of a recording, under any schedule and with
  calls that fail.
* **Accounts, students and links** (`Centers`, `CenterRequests`, `AccountEdits`, `CentersRuns`, `Families`,
  `TeacherScope`, `LinkRules`, `CentersStore`). Every transaction that registers, changes, moves, links, imports or deletes, with
  its refusals and its rollback.
* **One-time codes** (`Otp`, `OtpRuns`, `OtpTimes`, `OtpStore`). Any number of requests that guess or ask for a
  code, one database call at a time.
* **Face index and photo folders** (`FaceIndex`, `FaceFolders`, `FaceService`). The folder swap with a
  possible failure at every file-system call, the copy-on-write index, reloading and matching.

Times are whole milliseconds, scores are reals, database row identifiers are positions or counters that
are never reused. The face library, the code hash and the random codes are parameters.

## Where the code and its descriptions differ

The model follows the code. Each difference below is proved, with the exact condition where there is one.

* A pickup can come before its arrival: the watch marks a record with the time its run began, even if a
  teacher re-marked the student after that (`RunsRecords.LeavesAfterArrivingExactly`, a run in
  `LateArrival`).
* `markPickedUp` updates without a guard after its check; if a teacher marks the student absent in between,
  an absent record ends up picked up (`RunsRecords.StaleCheckExactly`, `RunsRecords.AbsentMarkInBetween`).
* `instantAtMinute` and the minute comparison of the windows agree for all instants exactly when the
  window is a whole number of minutes (`SchoolTime.InWindowNeedsWholeMinutes`); `schoolDayStart` is right
  exactly for offsets of less than a day (`SchoolTime.SchoolDayStartExact`).
* Saving the same records again is harmless exactly when the request does not give one student's day two
  statuses (`BulkSave.RepostIsHarmlessExactly`).
* An Admin can turn a Teacher who still has students into something else; the handover runs only from
  Teacher to Teacher, and consistency is then lost (`CentersRuns.UpdateUserExactly`,
  `CentersRuns.TeacherLeavesStudents`).
* Removing a student's faces can fail after the photos are gone; the index then still knows the student
  until a reload (`FaceFolders.UnenrollExactly`, `FaceFolders.HalfRemovedStudentIsStillKnown`).

## Model

| member | source | states |
|---|---|---|
| SchoolTime.SchoolDayStartExact | src/controllers/activityLogs.controller.js:14-22 | both branches give the first instant of that local day, for exactly the zones less than a day from UTC |
| SchoolTime.InstantAtMinuteExact | src/services/pickupWatch.service.js:56-61 | every instant of one local day names the same moment: that local midnight plus the minutes, on that day, at that minute |
| SchoolTime.InWindowExact | src/services/pickupWatch.service.js:44-54 | for whole-minute windows the minute comparison holds if and only if now lies between the start and end instants; otherwise it never misses one |
| SchoolTime.InWindowNeedsWholeMinutes | src/services/pickupWatch.service.js:44-54 | they agree at every instant if and only if the window is a whole number of minutes |
| SchoolTime.PickupWindowStatusExact | src/services/pickupWatch.service.js:63-70 | an end is reported exactly while a window is open, and it is the latest end among the open ones |
| Signals.LatestRunIsUnique | src/services/attendanceVerification.service.js:19-26 | a history has one latest unbroken run |
| Signals.WeightsSumToOne | src/services/attendanceVerification.service.js:13-26 | the smoothing weights of a run sum to one |
| Signals.SmoothedScoreIsConvex | src/services/attendanceVerification.service.js:13-26 | a smoothed score stays between the least and greatest reading of its run |
| Signals.SignalRowExact | src/services/attendanceVerification.service.js:17-26 | the incremental row is a function of the full history: length of the latest run, last time, weighted average of that run |
| Signals.SignalPresentExact | src/services/attendanceVerification.service.js:28-35 | a signal counts if and only if its full history ends in a long enough, fresh, good enough run |
| Signals.VerifiedExact | src/services/attendanceVerification.service.js:37-42 | "verified" if and only if both full histories are evidence |
| Signals.NearTagWasReallyNear | src/services/attendanceVerification.service.js:30-35 | a tag that counts as near was near in at least one reading of its run |
| Signals.ConfidentFacesAlwaysPass | src/services/attendanceVerification.service.js:30-35 | over confident readings the smoothed distance test never fails |
| PickupPolicy.AbsentSinceExact | src/services/pickupWatch.service.js:72-79 | the absence starts at the latest of the six pieces of evidence: none is later and it is one of them |
| Runs.StepRecords | src/services/pickupWatch.service.js:100-112 | the six ways any step can leave an attendance record, and who can cause each: a save leaves the status it asked for, an answer picks up only if it said "picked up" to an open prompt of that student |
| Runs.StepSignals | src/services/attendanceVerification.service.js:102-113 | only an accepted sighting writes a signal row, exactly its own |
| Runs.StepSessions | src/services/pickupWatch.service.js:139-166 | sessions are only closed, once, with the closer's time, and at most one is added |
| Runs.StepChecks | src/services/pickupWatch.service.js:337-341 | only the watch adds a prompt and only a claimed answer changes one |
| Runs.SignalRowsAreTheirHistories | src/services/attendanceVerification.service.js:102-113 | in every reachable state each signal row is the fold of all its recorded readings |
| Runs.RecordSignalExact | src/services/attendanceVerification.service.js:98-126 | a recording leaves "pending" if and only if both full histories, this reading included, are evidence |
| Runs.SightingsAreKept | src/services/attendanceVerification.service.js:109-113 | a recorded sighting is never lost or made older |
| Runs.AnswersAreKept | src/services/pickupWatch.service.js:415-419 | a claimed answer stays as it was given |
| RunsHardware.OutagesAreKept | src/services/pickupWatch.service.js:116-125 | an outage the watch found is never forgotten or moved back |
| RunsHardware.LooksOnlyWithOpenEyes | src/services/pickupWatch.service.js:291-294 | the watch goes on to read a center's tables if and only if it holds a session, the gateway was heard within 30 s and the center's camera, since the last restart, within 30 s; else it remembers the outage |
| RunsHardware.ReadsWithOpenEyes | src/lib/hardwareStatus.js:8-36 | whenever the watch reads or acts on a center's tables, it had found that so earlier in the same run |
| Runs.ClocksAlwaysAgree | src/services/pickupWatch.service.js:291-294 | nothing the watch remembers lies in the future of its run |
| RunsWatch.WatchAlwaysKnows | src/services/pickupWatch.service.js:233-268 | what the watch holds at any point were rows of the database when it read them, each student once, split by center and state |
| RunsPrompts.StillHereIsLatest | src/services/pickupWatch.service.js:315-320 | the last "still here" by creation is also the latest by answer |
| RunsPrompts.PromptAgain | src/services/pickupWatch.service.js:83-92 | when the watch acts no prompt of the student is open, and a new prompt comes a minute after the last began, or ended within the same absence |
| RunsPrompts.PromptsStayDisciplined | src/services/pickupWatch.service.js:322-345 | prompts of one student's day start at least a minute apart and never overlap, in every run |
| RunsPickup.OnlyTheWatchAutoMarks | src/services/pickupWatch.service.js:100-112 | an automatic pickup is always the watch's decision, with the time its run began |
| RunsPickup.AutoPickupIsSound | src/services/pickupWatch.service.js:272-345 | at an automatic pickup the student is tracked and in their window, gateway and camera were heard within 30 s, every sighting, "still here", arrival, window start, outage and the start of the process is at least absentMs back, and no prompt is open |
| RunsResponse.SinceIsExact | src/services/pickupWatch.service.js:296-334 | the absence the watch computes starts at or before an instant if and only if no such trace is later |
| RunsResponse.EveryoneLookedAtIsDecided | src/services/pickupWatch.service.js:322-345 | a look at a center decides about every waiting student, even if it fails for others |
| RunsResponse.FailuresStayLocal | src/services/pickupWatch.service.js:322-345 | a failure changes no row and costs at most one student's decision, or the rest of one center |
| RunsResponse.EveryCenterHasItsTurn | src/services/pickupWatch.service.js:260-268 | whatever fails at other centers, a run that ends without a restart has given every center its turn |
| RunsResponse.WhoeverWaitsIsListed | src/services/pickupWatch.service.js:233-256 | a tracked student in their window whose record was waiting when the run read it is on its list |
| RunsResponse.GoneStudentsArePickedUp | src/services/pickupWatch.service.js:272-345 | with nothing new after s, the window open and completed looks at the center at most gap apart, a look by s + absentMs + 15 s + gap finds or leaves the student no longer waiting |
| RunsLimits.PromptsOfOneAbsenceAreApart | src/services/pickupWatch.service.js:88-91 | prompts of one absence start at least 75 s apart |
| RunsLimits.PromptsPerAbsence | src/services/pickupWatch.service.js:83-92 | one absence makes at most ceil((absentMs - 60000) / 75000) prompts |
| RunsLimits.SinceOnlyAdvances | src/services/pickupWatch.service.js:77-79 | between two decisions about one student's day the start of the absence never moves back |
| RunsLimits.LongAbsenceIsMarked | src/services/pickupWatch.service.js:322-341 | once an absence has lasted absentMs and the life of a prompt, the next decision marks the student |
| RunsDecisions.DecidesExactly | src/services/pickupWatch.service.js:83-92 | the watch marks if and only if nothing is known of the student for absentMs and no prompt is open; asks if and only if nothing is known for a minute and the prompts of this absence are over for a minute; and what each leaves in the tables |
| RunsDecisions.UndoesExactly | src/services/pickupWatch.service.js:347-357 | an automatic pickup is taken back if and only if face and tag were both seen after it and their full histories are evidence, and it is still automatic; nothing else changes |
| RunsDecisions.ArrivesExactly | src/services/attendanceVerification.service.js:47-126 | a sighting makes a student present if and only if all face and all tag readings of the session are evidence and no present or excused record is in the way; the verification row holds the averages of both runs |
| RunsCenters.BeginsExactly | src/services/pickupWatch.service.js:220-228 | a run begins if and only if none is in progress and a window is open; it knows the session that runs at each center |
| RunsCenters.WindowStartMeans | src/services/pickupWatch.service.js:249 | the window start of a run is when the earliest of the open windows opened |
| RunsCenters.CentersAreSettled | src/services/pickupWatch.service.js:272-289 | at each center: while somebody waits, today's session is used, started or found running, unless the watch's own was stopped; when nobody waits, the watch's own ends with the time of the run; no other row changes |
| RunsCenters.WaitingCentersGetASession | src/services/pickupWatch.service.js:139-166 | a center where somebody waits gets a session of its own, unless the watch's own of this window was stopped |
| RunsRecords.RecordsStayOk | src/controllers/attendance.controller.js:126-145 | in every run: automatic means picked up, picked up means present and arrived, a verification means present since verifiedAt |
| RunsRecords.TeacherPickupStands | src/controllers/attendance.controller.js:185-189 | only a manual save can touch a teacher-made pickup |
| RunsRecords.LeavesAfterArrivingExactly | src/services/pickupWatch.service.js:100-104 | a pickup is not before its arrival, except exactly when the watch marks a record re-marked after its run began |
| RunsRecords.LeavesAfterArrivingInRuns | src/services/pickupWatch.service.js:100-104 | without that, no run ever has a pickup before its arrival |
| RunsRecords.ArrivalsRespectTeachers | src/services/attendanceVerification.service.js:47-65 | automatic arrival never overwrites a present or excused record |
| RunsRecords.VerificationsAreAccountedFor | src/services/attendanceVerification.service.js:53-96 | a student is verified on a day at most once more than teachers marked them absent |
| RunsRecords.NoFlapping | src/services/pickupWatch.service.js:322-362 | two automatic pickups of one student's day are at least absentMs apart, whatever comes between |
| RunsRecords.StaleCheckExactly | src/controllers/attendance.controller.js:174-189 | the unguarded update keeps the record well-formed if and only if it still has an arrival, and is the guarded pickup if and only if the check still holds |
| RunsRecords.AbsentMarkInBetween | src/controllers/attendance.controller.js:174-189 | an absent mark between the check and the update always leaves a picked up absentee |
| Requests.SaveExactly | src/controllers/attendance.controller.js:103-145 | a future day changes nothing; otherwise exactly that student's day is marked from scratch with the status asked for, an arrival now exactly for "present" today |
| Requests.BulkSaveExactly | src/controllers/attendance.controller.js:203-274 | one future date refuses all; otherwise each record ends as the last entry about it that asks for another status, and a record with no such entry stays |
| Requests.PickUpExactly | src/controllers/attendance.controller.js:168-189 | exactly a present, arrived, waiting record of today is picked up now, by hand |
| Requests.AnswerExactly | src/services/pickupWatch.service.js:401-423 | an open prompt of today is answered once; "still here" touches no record, "picked up" takes exactly its student away; any other prompt changes nothing |
| Requests.RecordSignalMoves | src/services/attendanceVerification.service.js:98-126 | a recording moves its own row only; both rows then decide whether the student arrives, and whose scores the verification row gets |
| Requests.SightingExactly | src/services/attendanceVerification.service.js:102-126 | the same for a sighting as it comes in |
| Requests.StartExactly | src/controllers/attendanceSession.controller.js:64-88 | today's running session is kept; otherwise a leftover ends now and exactly one row is added |
| Requests.StopExactly | src/controllers/attendanceSession.controller.js:107-113 | exactly the center's running sessions end, now |
| Requests.CleanupExactly | src/lib/sessionCleanup.js:5-14 | exactly the sessions that run for more than twelve hours end, now |
| LateArrival.PickupBeforeArrivalHappens | src/services/pickupWatch.service.js:335-336 | a concrete run that ends with a pickup a second before the arrival |
| RunsSessions.OneActiveAlways | src/controllers/attendanceSession.controller.js:81-98 | a center has at most one active session in every reachable state |
| RunsSessions.StartLeavesTodaysSession | src/controllers/attendanceSession.controller.js:59-87 | Start leaves today's session running and other centers alone; a second Start changes nothing |
| RunsSessions.StopStopsOnlyItsCenter | src/controllers/attendanceSession.controller.js:104-113 | Stop ends the center's session now and touches nothing else |
| RunsSessions.AutoSessionEndsLater | src/services/pickupWatch.service.js:278-288 | a session the watch started can only end at or after the time of that run |
| RunsSessions.AutoStartsOncePerWindow | src/services/pickupWatch.service.js:136-166 | Stop means stop: the watch starts at most one session per center, day and window start |
| RunsSessions.AutoStartsAtMostTwiceADay | src/services/pickupWatch.service.js:136-166 | hence at most two per center and day |
| WatchRun.StepsToEndExact | src/services/pickupWatch.service.js:251-363 | the small steps of an uninterrupted run are one pass over the centers and their students |
| BulkSave.RepostIsHarmlessExactly | src/controllers/attendance.controller.js:238-274 | posting the same records again changes nothing if and only if they do not contradict each other |
| AttendanceStore.Store.constructor | src/services/pickupWatch.service.js:116-121 | the process starts healthy now, with no outage and no camera known |
| AttendanceStore.Store.UpdateAttendance | src/controllers/attendance.controller.js:103-145 | saving one status leaves exactly the described state (what that is: `Requests.SaveExactly`); a future day is refused |
| AttendanceStore.Store.RecordAttendance | src/controllers/attendance.controller.js:203-274 | the bulk save checks every date, then leaves exactly the described state |
| AttendanceStore.Store.UpsertRecords | src/controllers/attendance.controller.js:249-274 | writing the records first and dropping the evidence of all of them afterwards equals doing both one by one |
| AttendanceStore.Store.MarkPickedUp | src/controllers/attendance.controller.js:168-189 | marks exactly a present, arrived, not yet picked up record of today |
| AttendanceStore.Store.AutoMarkPickedUp | src/services/pickupWatch.service.js:100-112 | the guarded update, and whether this call did it |
| AttendanceStore.Store.AnswerPickupCheck | src/services/pickupWatch.service.js:401-423 | claims an open, unanswered prompt of today exactly once, and leaves exactly the described state (`Requests.AnswerExactly`) |
| AttendanceStore.Store.MarkVerified | src/services/attendanceVerification.service.js:53-81 | creates the record, or overrides an absent one, or leaves it, with its evidence |
| AttendanceStore.Store.RecordSignal | src/services/attendanceVerification.service.js:102-126 | one recording, table by table |
| AttendanceStore.Store.TouchCamera | src/lib/hardwareStatus.js:29-31 | remembers the frame for its own center only |
| AttendanceStore.Store.StartSession | src/controllers/attendanceSession.controller.js:64-98 | closes a leftover, keeps today's, inserts under the one-active index |
| AttendanceStore.Store.StopSession | src/controllers/attendanceSession.controller.js:107-117 | closes the center's active rows |
| AttendanceStore.Store.CloseStaleSessions | src/lib/sessionCleanup.js:9-14 | closes active rows started more than 12 hours ago |
| AttendanceStore.Store.EnsureAutoSession | src/services/pickupWatch.service.js:139-166 | closes a leftover, respects a stopped session, inserts or finds the winner |
| AttendanceStore.Store.PromptsByStudent | src/services/pickupWatch.service.js:315-320 | one pass over the prompts finds every student's newest prompt and last "still here" |
| AttendanceStore.Store.WatchPending | src/services/pickupWatch.service.js:322-345 | the decision about one waiting student |
| AttendanceStore.Store.WatchUndo | src/services/pickupWatch.service.js:347-362 | the undo of one automatic pickup |
| AttendanceStore.Store.WatchStudents | src/services/pickupWatch.service.js:296-362 | all waiting students, then all automatic pickups, from one reading of the tables |
| AttendanceStore.Store.SettleSession | src/services/pickupWatch.service.js:276-288 | starts a session while students wait, ends its own after the last |
| AttendanceStore.Store.LookForStudents | src/services/pickupWatch.service.js:289-297 | reads the tables or remembers an outage, as described (over events: `RunsHardware.LooksOnlyWithOpenEyes`) |
| AttendanceStore.Store.WatchCenter | src/services/pickupWatch.service.js:272-363 | one center's share of a run |
| AttendanceStore.Store.GroupByCenter | src/services/pickupWatch.service.js:253-257 | groups hold exactly each center's records, in order |
| AttendanceStore.Store.AddSessionCenters | src/services/pickupWatch.service.js:251-258 | centers with only a session are watched too, with no records |
| AttendanceStore.Store.WatchCenters | src/services/pickupWatch.service.js:260-268 | every center once, each on the state the one before left |
| AttendanceStore.Store.RunPickupWatch | src/services/pickupWatch.service.js:225-268 | a whole run equals the big-step description of a run |
| AttendanceImport.ValidEntriesExact | src/controllers/attendanceBulk.controller.js:132-147 | what is imported is, for every student's day, the file's first readable row about it, once |
| AttendanceImport.ImportConserves | src/controllers/attendanceBulk.controller.js:149-178 | created + updated + unchanged + failed is the number of rows |
| AttendanceImport.DryRunTellsTheTruth | src/controllers/attendanceBulk.controller.js:158-161 | a dry run changes nothing and reports what the real run then reports |
| AttendanceImport.FirstRowWins | src/controllers/attendanceBulk.controller.js:132-177 | a record whose status differs from the file's first row about it is marked anew with that status; all others, and the other tables, keep everything; created counts the new ones |
| AttendanceImport.ReportExactly | src/controllers/attendanceBulk.controller.js:102-160 | the report names exactly the rows that are not imported, once, in order, with what is wrong; a repeat with the line of the first row about the same record |
| AttendanceImport.SummaryCounts | src/controllers/attendanceBulk.controller.js:156-158 | created are the records added, created and updated together all that get another status |
| AttendanceImport.ReimportIsHarmless | src/controllers/attendanceBulk.controller.js:84-89 | the same file again, the same or a later day that takes the same rows, writes nothing |
| AttendanceImport.SortByRowExact | src/controllers/attendanceBulk.controller.js:160 | the report is all failures, in row order |
| AttendanceImport.ReadRows | src/controllers/attendanceBulk.controller.js:102-119 | the first pass splits the file into parsed and unreadable rows |
| AttendanceImport.ResolveRows | src/controllers/attendanceBulk.controller.js:130-147 | the second pass with its map of first rows finds exactly the valid entries and the failures |
| AttendanceImport.ImportAttendance | src/controllers/attendanceBulk.controller.js:90-182 | the program leaves the state and the report of the description |
| WorkerPool.EveryScheduleIsOrderly | src/utils/concurrency.js:6-21 | under every schedule no item is taken twice, at most max(1, limit) are in flight, and a result is the item's own, in its place |
| WorkerPool.ConcurrentIsSequential | src/utils/concurrency.js:6-21 | every schedule that completes leaves the rows of recording the items one by one |
| WorkerPool.TurnMakesProgress | src/utils/concurrency.js:9-14 | every turn leaves less work, so every schedule ends |
| BoundedWorkers.SharedPool.Turn | src/utils/concurrency.js:9-14 | one worker from one wait to the next |
| BoundedWorkers.MapWithLimit | src/utils/concurrency.js:6-21 | under any scheduler and any failures: it ends, fails exactly if a call was rejected, and else has the sequential rows and results in order |
| Gateway.ResolveTags | src/controllers/attendanceGateway.controller.js:55-64 | the two maps hold exactly the tags and students whose center has a session running |
| Gateway.TagsExactly | src/controllers/attendanceGateway.controller.js:55-64 | a tag stands for its row's student if their center has a session running, and a student's sightings go to the session of their own center |
| Gateway.GroupByStudent | src/controllers/attendanceGateway.controller.js:66-84 | one group per student with all and only their readings in order; accepted counts them |
| Gateway.TotalIsAccepted | src/controllers/attendanceGateway.controller.js:84 | every registered sighting ends up in exactly one group |
| Gateway.ConcurrentRecordingIsEventByEvent | src/controllers/attendanceGateway.controller.js:71-83 | for every completing schedule all rows equal those of recording the events one by one |
| Gateway.PostEvents | src/controllers/attendanceGateway.controller.js:31-89 | the whole request: accepted is the number of known tags with a running session, and the rows are those of one-by-one recording |
| Frames.CountFaces | src/controllers/attendanceFrame.controller.js:61-66 | counts how often each student was matched in the frame |
| Frames.SelectCandidates | src/controllers/attendanceFrame.controller.js:61-67 | the candidates are exactly the confident faces whose student no other face was matched to |
| Frames.TrustedFacesExactly | src/controllers/attendanceFrame.controller.js:61-67 | a face is a candidate if and only if it is confident and no other face was matched to its student |
| Frames.ConfidentExactly | src/controllers/attendanceFrame.controller.js:21-28 | a match is confident if and only if one enrolled student is near enough and all others are further away by the margin |
| Frames.TrustedFacesAreCandidates | src/controllers/attendanceFrame.controller.js:61-67 | they are confident matches of different students |
| Frames.FrameItemsAreSafe | src/controllers/attendanceFrame.controller.js:77-102 | a frame's readings are one per student and inside the face threshold, so they may be recorded together |
| Frames.FrameItemsExactly | src/controllers/attendanceFrame.controller.js:69-102 | the readings are those of exactly the candidates whose center has a session running: the face's distance, now |
| Frames.ProcessFrame | src/controllers/attendanceFrame.controller.js:61-108 | the rows are those of recording the candidates one by one, and the students reported are exactly those it verified |
| Frames.FaceRowsAlwaysPass | src/controllers/attendanceFrame.controller.js:21-28 | in runs fed by frames a face row is evidence as soon as its run is long enough and fresh |
| Centers.CenterFromStudents | src/controllers/users.controller.js:204-225 | a center comes back exactly when all selected students are at it, and there are some |
| CentersRuns.RegisterKeeps | src/controllers/users.controller.js:369-439 | registering keeps links, teachers and centers consistent |
| CentersRuns.MovedTeacherKeeps | src/controllers/users.controller.js:234-277 | moving or handing over the students of a moved Teacher keeps them consistent |
| CentersRuns.UpdateStudentKeeps | src/controllers/students.controller.js:331-433 | reassigning and linking by email keeps them consistent |
| CentersRuns.DeleteStudentKeeps | src/controllers/students.controller.js:501-515 | so does deleting a student |
| CentersRuns.RemoveUserKeeps | src/controllers/users.controller.js:837-878 | so does deleting an account: links cascade, students lose their teacher |
| CentersRuns.ImportKeeps | src/controllers/students.controller.js:549-587 | so does every row of an import |
| CentersRuns.UpdateUserExactly | src/controllers/users.controller.js:458-609 | changing an account keeps consistency if and only if it does not take the Teacher role from somebody with students |
| CentersRuns.RequestsKeepConsistency | src/controllers/users.controller.js:369-609 | the same for every request of anyone, accepted or refused |
| CentersRuns.RunsKeepConsistency | src/controllers/students.controller.js:149-166 | over runs: links only of families, a student's teacher is a Teacher, a linked account is at its child's center |
| CentersRuns.TeacherLeavesStudents | src/controllers/users.controller.js:585-595 | a concrete account change that breaks it |
| CentersRuns.EmailsStayUnique | src/controllers/users.controller.js:366-453 | in every run no two accounts have the same email |
| CenterRequests.StudentEditStores | src/controllers/students.controller.js:331-433 | an edit goes through if and only if the actor may touch the student, an Admin chose an existing Teacher or none, and no family is left elsewhere; then every value sent is stored, the others are kept, other students are as they were, and exactly the matching accounts are linked and active |
| CenterRequests.NewStudentStores | src/controllers/students.controller.js:283-318 | who may add a student with which teacher; the row that is stored and exactly the accounts that are linked |
| CenterRequests.RemoveStudentExactly | src/controllers/students.controller.js:478-515 | who may; the row and its links go, and exactly the accounts whose only child it was are deactivated |
| CenterRequests.ImportRowExactly | src/controllers/students.controller.js:549-587 | a malformed row, or a child the teacher already has, changes nothing; any other row is stored and linked |
| CenterRequests.ImportAccepted | src/controllers/students.controller.js:541-556 | one to five hundred rows; a Teacher's become their own, an Admin's nobody's |
| CenterRequests.RemoveUserExactly | src/controllers/users.controller.js:837-870 | nobody deletes themselves, a Teacher only families of their center that reach no student elsewhere; links go, students are left without a teacher |
| CenterRequests.RegisterExactly | src/controllers/users.controller.js:369-439 | goes through if and only if the actor may make such an account, its center is known, its email is free and a family reaches a student; stores exactly that account and these links |
| AccountEdits.ChangeUserExactly | src/controllers/users.controller.js:458-609 | goes through if and only if actor, center, email, students, class and links allow it; then the account, its links, the class and its families are exactly as asked for, and nothing else changes |
| AccountEdits.ElsewhereLooksMissing | src/controllers/users.controller.js:470-481 | a Teacher gets the same answer for a family account of another center as for one that does not exist |
| Families.RequestKeepsFamilies | src/controllers/users.controller.js:303-309 | no request leaves an active family account without a child |
| Families.ActiveFamiliesHaveAChild | src/controllers/users.controller.js:303-309 | in every run every active Parent or Guardian has at least one child |
| Families.DeactivationExactly | src/controllers/students.controller.js:471-499 | an account is deactivated if and only if a request deletes its only child |
| Families.RequestKeepsPlaces | src/controllers/users.controller.js:366-368 | every account but an Admin's belongs to a center, whatever is requested |
| Families.ImportCreates | src/controllers/students.controller.js:541-602 | an import creates one student per row it does not report, and keeps all others |
| Families.ImportExactly | src/controllers/students.controller.js:541-602 | exactly the new children are stored, with their first row's emails and name, and exactly the other rows are reported, by line |
| Families.ReimportCreatesNothing | src/controllers/students.controller.js:558-573 | the same file again creates nobody and reports every row |
| TeacherScope.TeachersStayInTheirCenter | src/utils/ownership.js:13-18 | whatever a Teacher requests, no account, student or link of another center changes |
| TeacherScope.TransferKeepsEveryoneInPlace | src/controllers/users.controller.js:238-253 | handing over leaves nobody with the moved Teacher and everybody else at their center |
| TeacherScope.MoveTakesFamiliesAlong | src/controllers/users.controller.js:262-276 | moving along takes exactly the linked families to the new center |
| LinkRules.RegisterAddsOneAccount | src/controllers/users.controller.js:397-439 | one new account, linked to exactly the selected students and those that match by email, all at its center |
| LinkRules.PlainEditKeepsLinks | src/controllers/users.controller.js:597-603 | a plain edit restores no link that was removed on purpose |
| LinkRules.LeavingFamilyDropsLinks | src/controllers/users.controller.js:579-583 | leaving the family roles drops that account's links and no others |
| LinkRules.StudentEditLinksChangedEmails | src/controllers/students.controller.js:418-433 | editing a student adds links to exactly the accounts matching a changed email at the teacher's center, active again |
| CentersStore.Tables.Rollback | src/controllers/users.controller.js:303-309 | a failure inside a transaction leaves the tables as they were |
| CentersStore.Tables.LinkStudentsByEmail | src/controllers/users.controller.js:287-301 | adds the links of one account by email, at its center only |
| CentersStore.Tables.LinkAccountsByEmail | src/controllers/students.controller.js:119-148 | adds the links of one student by email, and activates those accounts |
| CentersStore.Tables.CenterFromStudents | src/controllers/users.controller.js:204-225 | equals its description |
| CentersStore.Tables.RegisterUser | src/controllers/users.controller.js:369-453 | equals its description, including every refusal and the rollback |
| CentersStore.Tables.ResolveStudentsOfMovedTeacher | src/controllers/users.controller.js:234-277 | equals its description, and a refusal writes nothing |
| CentersStore.Tables.ReplaceLinks | src/controllers/users.controller.js:567-578 | replaces the links inside the actor's scope and activates an account that has a child again |
| CentersStore.Tables.NewCenter | src/controllers/users.controller.js:524-541 | the center an edit leads to, or its refusal |
| CentersStore.Tables.Plan | src/controllers/users.controller.js:458-562 | every check before the transaction |
| CentersStore.Tables.SaveEdit | src/controllers/users.controller.js:564-609 | the transaction, step by step, with its rollback |
| CentersStore.Tables.UpdateUser | src/controllers/users.controller.js:458-609 | equals its description |
| CentersStore.Tables.DeleteUser | src/controllers/users.controller.js:837-878 | equals its description |
| CentersStore.Tables.AddStudent | src/controllers/students.controller.js:303-322 | a new row and its links |
| CentersStore.Tables.CreateStudent | src/controllers/students.controller.js:283-322 | equals its description |
| CentersStore.Tables.UpdateStudent | src/controllers/students.controller.js:331-438 | equals its description, with its rollback (what is stored: `CenterRequests.StudentEditStores`) |
| CentersStore.Tables.DeleteStudent | src/controllers/students.controller.js:478-515 | equals its description |
| CentersStore.Tables.ImportStudents | src/controllers/students.controller.js:541-602 | the loop over the rows equals its description; created and failed add up |
| OtpRuns.ClaimsAreCompared | src/controllers/auth.controller.js:151-163 | every claimed attempt of a code is compared once or still to be compared |
| OtpRuns.GuessesPerCode | src/controllers/users.controller.js:69-87 | however many requests race, a code is compared at most five times |
| OtpRuns.SuccessNeedsTheCode | src/controllers/users.controller.js:73-100 | nobody gets through without matching a code issued to that mailbox, or that account and action |
| OtpRuns.AccountCodesWorkOnce | src/controllers/users.controller.js:88-95 | a code for an account action lets at most one request through |
| OtpRuns.ResetsNeverExceedCodes | src/controllers/auth.controller.js:171-193 | resets of a mailbox and its unused codes never exceed the codes issued to it |
| OtpRuns.ResetIsAtomic | src/controllers/auth.controller.js:175-197 | a reset consumes every code of the mailbox and every action code of the account and signs out exactly it, or changes nothing |
| OtpTimes.GuessesExactly | src/controllers/auth.controller.js:139-197 | what each turn of a guess does to its request, the codes and the accounts: lookup of the newest usable code in time, one of five attempts, comparison, use |
| OtpTimes.AsksExactly | src/controllers/auth.controller.js:86-109 | what each turn of a request for a code does: an active account, a minute since the last code, the older ones used up, one row good for ten minutes |
| OtpTimes.CleansExactly | src/lib/otpCleanup.js:6-14 | exactly the used and expired codes go, or the codes of a deleted account |
| OtpTimes.SuccessIsInTime | src/controllers/users.controller.js:73-100 | whoever gets through had looked up the matched code when it was the newest usable one of exactly that mailbox, or account and action, and had not run out |
| OtpTimes.CodesLiveTenMinutes | src/controllers/auth.controller.js:97-107 | in every run no code outlives ten minutes |
| OtpTimes.OldCodesAreUseless | src/controllers/auth.controller.js:147 | a code looked up more than ten minutes after it was made lets nobody through |
| OtpTimes.ResetCodesAreSpaced | src/controllers/auth.controller.js:91-96 | whoever makes a reset code had found that none was sent to the mailbox in the minute before |
| OtpStore.NewestOf | src/controllers/auth.controller.js:142-145 | finds a newest unused code if and only if there is one |
| OtpStore.Store.CheckCode | src/controllers/users.controller.js:73-87 | lookup, claim and comparison are the machine's first three turns (what they do: `OtpTimes.GuessesExactly`) |
| OtpStore.Store.ConsumeCode | src/controllers/users.controller.js:89-95 | wins exactly if the code was there and unused |
| OtpStore.Store.VerifyAccountCode | src/controllers/users.controller.js:97-100 | a whole guess is the machine's four turns (too late: `OtpStore.LateGuessIsRejected`) |
| OtpStore.Store.ResetPassword | src/controllers/auth.controller.js:134-197 | a whole reset is the machine's four turns (too late: `OtpStore.LateGuessIsRejected`) |
| OtpStore.Store.IssueCode | src/controllers/auth.controller.js:86-109 | issuing is the machine's turns: cooldown, retire, create |
| OtpStore.FreshCodeWorksOnce | src/controllers/users.controller.js:54-100 | alone, a fresh code of a mailbox or an account guessed right goes through once and never again, and a reset signs out exactly that account |
| OtpStore.LateGuessIsRejected | src/controllers/auth.controller.js:147 | alone, a guess later than ten minutes after issue is always rejected and changes nothing, for mailboxes and accounts |
| OtpStore.IssuesExactly | src/controllers/auth.controller.js:86-109 | alone, a code is sent if and only if the account exists and, for a reset, is active and was sent none in the last minute; older codes are used up |
| FaceIndex.KeptPhotosAnalyseTheSame | face-recognition-service/app.py:215-222 | removing the photos that were not used changes neither the encoding nor the names |
| FaceIndex.AnalyzeExactly | face-recognition-service/recognizer.py:77-105 | the encoding is the mean of the faces of exactly those photos among the first twenty that hold exactly one |
| FaceIndex.WithoutStudentExact | face-recognition-service/recognizer.py:60-63 | exactly that student disappears from the index |
| FaceIndex.WithStudentExact | face-recognition-service/recognizer.py:55-58 | exactly that student gets the new encoding, ids stay unique |
| FaceIndex.MatchIsNearest | face-recognition-service/recognizer.py:65-74 | a nearest student, and a margin that is never negative: how much further the nearest other student is |
| FaceFolders.LoadFirstExact | face-recognition-service/recognizer.py:114-132 | loading collects exactly the analysable folders listed so far, each id once |
| FaceFolders.ReloadIsInStep | face-recognition-service/app.py:130-140 | a reload puts the index in step with any disk |
| FaceFolders.UploadsAreInNameOrder | face-recognition-service/app.py:201-204 | up to eight numbered files are listed in the order they were written |
| FaceFolders.SwapExactly | face-recognition-service/app.py:227-236 | the swap replaces one folder or, failing anywhere, none |
| FaceFolders.StoreExactly | face-recognition-service/app.py:198-240 | the stored folder is exactly the usable photos of the upload, or no folder changed |
| FaceFolders.EnrollKeepsStep | face-recognition-service/app.py:161-244 | enrolling keeps index and disk in step wherever it fails; refused, it changes neither |
| FaceFolders.EnrollExactly | face-recognition-service/app.py:161-252 | what the caller is told, and why; done means the folder holds exactly the photos with one face, the index their mean, and no copy is left; nobody else's folders are touched |
| FaceFolders.UnenrollExactly | face-recognition-service/app.py:343-359 | removing keeps them in step if and only if it does not fail after a known student's folder is gone |
| FaceFolders.UnenrollErases | face-recognition-service/app.py:342-360 | fails exactly if a folder that is there cannot be removed; otherwise nothing of the student is left on disk or in the index |
| FaceFolders.IndexFollowsDisk | face-recognition-service/app.py:58-61 | over runs the index is what a reload of the disk would give |
| FaceFolders.HalfRemovedStudentIsStillKnown | face-recognition-service/app.py:350-358 | a concrete removal after which the index still knows a student whose photos are gone |
| FaceService.AnalyzeStudentDir | face-recognition-service/recognizer.py:77-105 | the loop over at most 20 photos equals its description |
| FaceService.LoadKnownFaces | face-recognition-service/recognizer.py:114-132 | the loop over the folders equals its description |
| FaceService.RecognitionService.constructor | face-recognition-service/app.py:58 | the service starts in step with the disk |
| FaceService.RecognitionService.ReloadKnownFaces | face-recognition-service/app.py:130-140 | afterwards the index is in step with the disk |
| FaceService.RecognitionService.WritePhotos | face-recognition-service/app.py:200-204 | a fresh folder with the photos written so far, at any failure |
| FaceService.RecognitionService.TrimPhotos | face-recognition-service/app.py:219-222 | only the named files stay |
| FaceService.RecognitionService.SwapFolders | face-recognition-service/app.py:227-236 | the swap with its rollback equals its description |
| FaceService.RecognitionService.Enroll | face-recognition-service/app.py:161-252 | equals its description |
| FaceService.RecognitionService.Unenroll | face-recognition-service/app.py:343-360 | the loop over the three folders equals its description |

## Left out

- HTTP routing, cookies, rate limits, audit logging, response shaping and the string validators: plumbing; a request arrives parsed.
- Email, SMS, push and in-app notifications, and the reminder to press Stop: deliveries that change no modelled row.
- Database and ORM details beyond tables, unique keys, conditional updates, cascades and transactions; the order of rows that a query leaves open is a parameter.
- DST: the school's zone is a fixed whole number of minutes.
- The roster (registration, center, tags) is fixed during a run of the attendance system, and the account tables do not change while it runs.
- Each request of the attendance system is one atomic step between two waits of the watch; only the recordings of one `mapWithLimit` call and the code requests are interleaved inside.
- AttendanceStore.Store.MarkPickedUp: the read and the unguarded update of `markPickedUp` are one step in runs; what happens when something comes between them is stated by `RunsRecords.StaleCheckExactly`, not by the theorems about runs.
- AttendanceStore.Store.EnsureAutoSession: closing a leftover, looking for a stopped session and creating the new one are one step; a failure between them is not modelled. The lost race with a teacher's Start is: the session may have been started since the run read the sessions.
- AttendanceStore.Store.StartSession: the refusal for a center that does not exist, and its own lost race, which one step cannot lose.
- Two signals of one student and kind with the same time in two sessions of one day: the model takes the older session's.
- AttendanceImport.ImportAttendance: the limits on the number of rows, and the wording of the messages.
- `updateMyProfile` and `deleteMyAccount` as account writers: an own email change touches no link, role or center; deleting oneself is the same removal as `deleteUser`.
- RunsDecisions.DecidesExactly: a prompt's creation time is the time of the run; the database stamps the row a moment later.
- Centers themselves: a fixed set of identifiers.
- Unassigning a teacher: treated as "no center"; what the library does with a lookup by null is not part of this model.
- Errors of the listing or deactivation after a student was deleted, which the program only logs.
- OtpStore.Store.ResetPassword: choosing and hashing the new password, and the notice that is sent; the account's token version stands for the change.
- The account action that follows a consumed code: password change and account deletion are only an account's row saved or gone.
- FaceService.RecognitionService.Enroll: what exactly is left in the temporary folder when trimming fails half-way, and crashes of the process in the middle of the swap.
- Photo listing, serving, set versions, frames over the network and image decoding in the recognition service.
- Storage drivers, signed URLs, albums, materials, goals, events, activity logs and the reports: little state, easy claims.

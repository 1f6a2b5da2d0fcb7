/** Runs of the attendance system: any sequence of stamped events on one wall clock. Here are the
    facts about a single step that every proof about runs rests on, and the histories of rows. */
module Runs {
  import opened Options
  import opened SchoolTime
  import opened Signals
  import opened PickupPolicy
  import opened Attendance

  datatype Run = Run(start: int, events: seq<Stamped>)

  ghost predicate Timely(run: Run) {
    && 0 <= run.start
    && (forall i :: 0 <= i < |run.events| ==> run.start <= run.events[i].at)
    && (forall i, j :: 0 <= i < j < |run.events| ==> run.events[i].at <= run.events[j].at)
  }

  // The system after the first `n` events.
  function StateAt(run: Run, n: nat, cfg: Config): (sys: Sys)
    requires n <= |run.events|
    ensures WatchOk(sys) && sys.steps == n
  {
    if n == 0 then Initial(run.start) else Step(StateAt(run, n - 1, cfg), run.events[n - 1], cfg)
  }

  lemma NextState(run: Run, n: nat, cfg: Config)
    requires n < |run.events|
    ensures StateAt(run, n + 1, cfg) == Step(StateAt(run, n, cfg), run.events[n], cfg)
  {
  }

  function Clock(run: Run, n: nat): int
    requires n <= |run.events|
  {
    if n == 0 then run.start else run.events[n - 1].at
  }

  // ---- what one step does to a record --------------------------------------------

  // The day starts from scratch with the status asked for; only a "present" of today is an arrival.
  ghost predicate Remarked(db': Db, key: Key, status: Status, now: int, cfg: Config) {
    && key in db'.records
    && db'.records[key]
       == Record(status, if status == Present && key.1 == SchoolDay(now, cfg.zone) then Some(now) else None, None, false)
    && key !in db'.verifications
  }

  ghost predicate Arrived(db: Db, db': Db, key: Key, now: int) {
    && (key in db.records ==> db.records[key].status == Absent)
    && key in db'.records
    && db'.records[key] == Record(Present, Some(now), None, false)
    && key in db'.verifications
    && db'.verifications[key].verifiedAt == now
  }

  ghost predicate Picked(db: Db, db': Db, key: Key, now: int, auto: bool) {
    && AwaitsPickup(db, key)
    && key in db'.records
    && db'.records[key] == db.records[key].(pickedUpAt := Some(now), pickedUpAuto := auto)
    && (key in db'.verifications <==> key in db.verifications)
    && (key in db.verifications ==> db'.verifications[key] == db.verifications[key])
  }

  ghost predicate Undone(db: Db, db': Db, key: Key) {
    && key in db.records
    && db.records[key].pickedUpAuto && db.records[key].pickedUpAt.Some?
    && key in db'.records
    && db'.records[key] == db.records[key].(pickedUpAt := None, pickedUpAuto := false)
    && (key in db'.verifications <==> key in db.verifications)
    && (key in db.verifications ==> db'.verifications[key] == db.verifications[key])
  }

  ghost predicate IsManualWrite(e: Event) {
    e.SaveStatus? || e.SaveStatuses?
  }

  // The request asks for this status on this student's day.
  ghost predicate AsksFor(e: Event, key: Key, status: Status) {
    || (e.SaveStatus? && e.key == key && e.status == status)
    || (e.SaveStatuses? && Entry(key, status) in e.entries)
  }

  ghost predicate Saved(e: Stamped, db': Db, key: Key, cfg: Config) {
    exists status :: AsksFor(e.event, key, status) && Remarked(db', key, status, e.at, cfg)
  }

  // A prompt of today that nobody has answered and that has not run out.
  ghost predicate IsOpen(checks: seq<Check>, id: nat, now: int, cfg: Config) {
    && id < |checks|
    && checks[id].date == SchoolDay(now, cfg.zone)
    && checks[id].prompt.answeredAt == None
    && now < checks[id].prompt.expiresAt
  }

  // A teacher takes the student away: by hand, or by answering an open prompt with "picked up".
  ghost predicate TakesAway(sys: Sys, e: Stamped, key: Key, cfg: Config) {
    || (e.event.PickUp? && key == (e.event.student, SchoolDay(e.at, cfg.zone)))
    || (&& e.event.AnswerCheck? && !e.event.stillHere && IsOpen(sys.db.checks, e.event.id, e.at, cfg)
        && key == (sys.db.checks[e.event.id].student, sys.db.checks[e.event.id].date))
  }

  // The watch is about to decide about the pending student of this record.
  ghost predicate ActsOn(sys: Sys, e: Event, key: Key, cfg: Config) {
    && e.WatchGoesOn? && sys.watch.AtStudents? && sys.watch.pending != []
    && key == (sys.watch.pending[0].student, SchoolDay(sys.watch.tick.now, cfg.zone))
  }

  ghost predicate UndoesFor(sys: Sys, e: Event, key: Key, cfg: Config) {
    && e.WatchGoesOn? && sys.watch.AtStudents? && sys.watch.pending == [] && sys.watch.undo != []
    && key == (sys.watch.undo[0].student, SchoolDay(sys.watch.tick.now, cfg.zone))
    && SeenAgain(sys.watch.seen, sys.watch.undo[0], sys.watch.tick.now, cfg)
  }

  function ActionAt(sys: Sys, cfg: Config): Action
    requires sys.watch.AtStudents? && sys.watch.pending != []
  {
    var w := sys.watch;
    ActionFor(w.seen, w.pending[0], UnhealthyAtFor(sys.mem, w.center), w.tick.now, cfg)
  }

  // The six ways a step can leave a record, and who can cause each.
  ghost predicate RecordChange(sys: Sys, e: Stamped, sys': Sys, key: Key, cfg: Config) {
    || Untouched(sys.db, sys'.db, key)
    || Saved(e, sys'.db, key, cfg)
    || (e.event.Sighting? && Arrived(sys.db, sys'.db, key, e.at))
    || (TakesAway(sys, e, key, cfg) && Picked(sys.db, sys'.db, key, e.at, false))
    || (ActsOn(sys, e.event, key, cfg) && ActionAt(sys, cfg) == Action.MarkPickedUp
        && Picked(sys.db, sys'.db, key, sys.watch.tick.now, true))
    || (UndoesFor(sys, e.event, key, cfg) && Undone(sys.db, sys'.db, key))
  }

  ghost predicate IsRequestOnRecords(e: Event) {
    e.SaveStatus? || e.SaveStatuses? || e.PickUp? || e.AnswerCheck?
  }

  lemma RequestOnRecord(sys: Sys, e: Stamped, key: Key, cfg: Config)
    requires WatchOk(sys) && IsRequestOnRecords(e.event)
    ensures RecordChange(sys, e, Step(sys, e, cfg), key, cfg)
  {
    hide UpsertAll, ToWrite, ActionAt, SeenAgain;
    if e.event.SaveStatuses? {
      var written := ToWrite(sys.db.records, e.event.entries);
      UpsertAllRemarks(sys.db, written, key, e.at, cfg);
      ToWriteIsAsked(sys.db.records, e.event.entries);
    } else if e.event.SaveStatus? {
      assert AsksFor(e.event, e.event.key, e.event.status);
    }
  }

  lemma SightingOnRecord(sys: Sys, e: Stamped, key: Key, cfg: Config)
    requires WatchOk(sys) && e.event.Sighting?
    ensures RecordChange(sys, e, Step(sys, e, cfg), key, cfg)
  {
    hide MergeSignal, Verified, ActionAt, SeenAgain;
  }

  lemma StudentsStepOnRecord(sys: Sys, e: Stamped, key: Key, cfg: Config)
    requires WatchOk(sys) && e.event.WatchGoesOn? && sys.watch.AtStudents?
    ensures RecordChange(sys, e, StudentsStep(sys, cfg), key, cfg)
  {
    hide ActionFor, SeenAgain;
  }

  lemma OthersStepOnRecords(sys: Sys, e: Stamped, cfg: Config)
    requires WatchOk(sys) && e.event.WatchGoesOn? && !sys.watch.AtStudents?
    ensures Step(sys, e, cfg).db.records == sys.db.records
    ensures Step(sys, e, cfg).db.verifications == sys.db.verifications
  {
    hide LegalOrder, ReadCandidates, HardwareUp, EnsureAutoSession, Close, OfCenter;
  }

  lemma WatchOnRecord(sys: Sys, e: Stamped, key: Key, cfg: Config)
    requires WatchOk(sys) && e.event.WatchGoesOn?
    ensures RecordChange(sys, e, Step(sys, e, cfg), key, cfg)
  {
    if sys.watch.AtStudents? {
      hide StudentsStep, ActionAt, SeenAgain;
      StudentsStepOnRecord(sys, e, key, cfg);
    } else {
      hide Step;
      OthersStepOnRecords(sys, e, cfg);
    }
  }

  ghost predicate SameRows(db: Db, db': Db) {
    && db'.records == db.records && db'.verifications == db.verifications
    && db'.signals == db.signals && db'.checks == db.checks
  }

  lemma FailuresKeepRows(sys: Sys, e: Stamped, cfg: Config)
    requires WatchOk(sys) && (e.event.WatchStumbles? || e.event.TickBegins? || e.event.ProcessRestarts?)
    ensures Step(sys, e, cfg).db == sys.db
  {
    hide SessionsByCenter, TypesOpen;
  }

  lemma SessionsKeepRows(sys: Sys, e: Stamped, cfg: Config)
    requires WatchOk(sys)
    requires e.event.PressStart? || e.event.PressStop? || e.event.StaleCleanup? || e.event.CameraFrame? || e.event.GatewayHeard?
    ensures SameRows(sys.db, Step(sys, e, cfg).db)
  {
    hide InsertActive, Close, FindActive;
  }

  lemma OthersKeepRecords(sys: Sys, e: Stamped, cfg: Config)
    requires WatchOk(sys) && !IsRequestOnRecords(e.event) && !e.event.Sighting? && !e.event.WatchGoesOn?
    ensures SameRows(sys.db, Step(sys, e, cfg).db)
  {
    hide Step;
    if e.event.WatchStumbles? || e.event.TickBegins? || e.event.ProcessRestarts? {
      FailuresKeepRows(sys, e, cfg);
    } else {
      SessionsKeepRows(sys, e, cfg);
    }
  }

  lemma StepRecords(sys: Sys, e: Stamped, key: Key, cfg: Config)
    requires WatchOk(sys)
    ensures RecordChange(sys, e, Step(sys, e, cfg), key, cfg)
  {
    hide Step;
    if IsRequestOnRecords(e.event) {
      RequestOnRecord(sys, e, key, cfg);
    } else if e.event.Sighting? {
      SightingOnRecord(sys, e, key, cfg);
    } else if e.event.WatchGoesOn? {
      WatchOnRecord(sys, e, key, cfg);
    } else {
      OthersKeepRecords(sys, e, cfg);
    }
  }

  lemma {:induction false} UpsertAllRemarks(db: Db, entries: seq<Entry>, key: Key, now: int, cfg: Config)
    ensures var db' := UpsertAll(db, entries, now, cfg);
            Untouched(db, db', key) || exists status :: Entry(key, status) in entries && Remarked(db', key, status, now, cfg)
  {
    if entries != [] {
      var last := entries[|entries| - 1];
      UpsertAllRemarks(db, entries[..|entries| - 1], key, now, cfg);
      if last.key == key {
        assert Entry(key, last.status) in entries && Remarked(UpsertAll(db, entries, now, cfg), key, last.status, now, cfg);
      }
    }
  }

  lemma {:induction false} ToWriteIsAsked(records: map<Key, Record>, entries: seq<Entry>)
    ensures forall e :: e in ToWrite(records, entries) ==> e in entries
  {
    if entries != [] {
      ToWriteIsAsked(records, entries[1..]);
    }
  }

  // ---- what one step does to the other tables --------------------------------------

  ghost predicate IsAccepted(sys: Sys, e: Event) {
    e.Sighting? && e.session < |sys.db.sessions|
  }

  lemma WatchKeepsSignals(sys: Sys, e: Stamped, cfg: Config)
    requires WatchOk(sys) && e.event.WatchGoesOn?
    ensures Step(sys, e, cfg).db.signals == sys.db.signals
  {
    hide ActionFor, SeenAgain, LegalOrder, ReadCandidates, HardwareUp, EnsureAutoSession, Close, OfCenter;
  }

  lemma StepSignals(sys: Sys, e: Stamped, cfg: Config)
    requires WatchOk(sys)
    ensures var sys' := Step(sys, e, cfg);
            if IsAccepted(sys, e.event) then
              var key := (e.event.session, e.event.student, e.event.kind);
              sys'.db.signals == sys.db.signals[key := MergeSignal(SignalAt(sys.db.signals, key), e.event.value, e.at, cfg.verify)]
            else sys'.db.signals == sys.db.signals
  {
    if e.event.WatchGoesOn? {
      hide Step;
      WatchKeepsSignals(sys, e, cfg);
    } else if !e.event.Sighting? && !IsRequestOnRecords(e.event) {
      hide Step;
      OthersKeepRecords(sys, e, cfg);
    } else {
      hide UpsertAll, ToWrite, MergeSignal, Verified;
      if e.event.SaveStatuses? {
        UpsertAllKeepsTheRest(sys.db, ToWrite(sys.db.records, e.event.entries), e.at, cfg);
      }
    }
  }

  // A session row keeps everything but its end.
  ghost predicate SameSession(a: Session, b: Session) {
    a.date == b.date && a.center == b.center && a.autoStarted == b.autoStarted && a.startedAt == b.startedAt
  }

  // Closed by whoever closes it: a request now, or the watch with its own time.
  ghost predicate EndsAt(end: int, sys: Sys, e: Stamped) {
    end == e.at || (e.event.WatchGoesOn? && sys.watch.AtCenter? && end == sys.watch.tick.now)
  }

  ghost predicate SessionStep(sys: Sys, e: Stamped, a: Session, b: Session) {
    && SameSession(a, b)
    && (a == b || (a.active && !b.active && b.endedAt.Some? && EndsAt(b.endedAt.value, sys, e)))
  }

  ghost predicate SessionsStep(sys: Sys, e: Stamped, after: seq<Session>) {
    && |sys.db.sessions| <= |after| <= |sys.db.sessions| + 1
    && (forall k :: 0 <= k < |sys.db.sessions| ==> SessionStep(sys, e, sys.db.sessions[k], after[k]))
  }

  lemma EnsureAutoSessionRows(sessions: seq<Session>, today: Day, session: Option<nat>, windowStart: int, center: Center, now: int)
    requires session.Some? ==> session.value < |sessions|
    ensures var after := EnsureAutoSession(sessions, today, session, windowStart, center, now).0;
            && |sessions| <= |after| <= |sessions| + 1
            && forall k :: 0 <= k < |sessions| ==>
                 || after[k] == sessions[k]
                 || (sessions[k].active && after[k] == sessions[k].(active := false, endedAt := Some(now)))
  {
  }

  lemma CenterStepSessions(sys: Sys, e: Stamped, cfg: Config)
    requires WatchOk(sys) && e.event.WatchGoesOn? && sys.watch.AtCenter?
    ensures SessionsStep(sys, e, CenterStep(sys, sys.watch.tick, e.at, cfg).db.sessions)
  {
    var tick := sys.watch.tick;
    if tick.todo != [] && PendingOf(OfCenter(tick.candidates, tick.todo[0], cfg)) != [] {
      hide EnsureAutoSession;
      var today, session := SchoolDay(tick.now, cfg.zone), SeenSession(tick, tick.todo[0]);
      EnsureAutoSessionRows(sys.db.sessions, today, session, WindowStart(tick.now, cfg), tick.todo[0], e.at);
    }
  }

  // Everything but these leaves the session rows alone.
  ghost predicate TouchesSessions(sys: Sys, e: Event) {
    e.PressStart? || e.PressStop? || e.StaleCleanup? || (e.WatchGoesOn? && sys.watch.AtCenter?)
  }

  lemma OthersKeepSessions(sys: Sys, e: Stamped, cfg: Config)
    requires WatchOk(sys) && !TouchesSessions(sys, e.event)
    ensures Step(sys, e, cfg).db.sessions == sys.db.sessions
  {
    hide MergeSignal, Verified, ActionFor, SeenAgain, LegalOrder, ReadCandidates, SessionsByCenter, UpsertAll, ToWrite, AwaitsPickup;
    if e.event.SaveStatuses? {
      UpsertAllKeepsTheRest(sys.db, ToWrite(sys.db.records, e.event.entries), e.at, cfg);
    }
  }

  lemma RequestsOnSessions(sys: Sys, e: Stamped, cfg: Config)
    requires WatchOk(sys) && (e.event.PressStart? || e.event.PressStop? || e.event.StaleCleanup?)
    ensures SessionsStep(sys, e, Step(sys, e, cfg).db.sessions)
  {
  }

  lemma StepSessions(sys: Sys, e: Stamped, cfg: Config)
    requires WatchOk(sys)
    ensures SessionsStep(sys, e, Step(sys, e, cfg).db.sessions)
  {
    if !TouchesSessions(sys, e.event) {
      hide Effect;
      OthersKeepSessions(sys, e, cfg);
    } else if e.event.WatchGoesOn? {
      hide CenterStep;
      CenterStepSessions(sys, e, cfg);
    } else {
      hide Effect;
      RequestsOnSessions(sys, e, cfg);
    }
  }

  ghost predicate AnswersNow(sys: Sys, e: Stamped, id: nat, cfg: Config) {
    e.event.AnswerCheck? && e.event.id == id && IsOpen(sys.db.checks, id, e.at, cfg)
  }

  ghost predicate CheckStep(sys: Sys, e: Stamped, id: nat, a: Check, b: Check, cfg: Config) {
    if AnswersNow(sys, e, id, cfg)
    then b == a.(prompt := a.prompt.(answeredAt := Some(e.at)),
                 answer := Some(if e.event.stillHere then StillHere else PickedUp))
    else b == a
  }

  ghost predicate Prompts(sys: Sys, e: Event, cfg: Config) {
    && e.WatchGoesOn? && sys.watch.AtStudents? && sys.watch.pending != []
    && ActionAt(sys, cfg) == AskTeacher
  }

  ghost predicate ChecksStep(sys: Sys, e: Stamped, after: seq<Check>, cfg: Config) {
    && |after| == |sys.db.checks| + (if Prompts(sys, e.event, cfg) then 1 else 0)
    && (forall k :: 0 <= k < |sys.db.checks| ==> CheckStep(sys, e, k, sys.db.checks[k], after[k], cfg))
    && (Prompts(sys, e.event, cfg) ==>
          after[|sys.db.checks|] == NewCheck(sys.watch.pending[0].student, sys.watch.tick.now, cfg))
  }

  lemma WatchOnChecks(sys: Sys, e: Stamped, cfg: Config)
    requires WatchOk(sys) && e.event.WatchGoesOn?
    ensures ChecksStep(sys, e, Step(sys, e, cfg).db.checks, cfg)
  {
    hide ActionFor, SeenAgain, LegalOrder, ReadCandidates, HardwareUp, EnsureAutoSession, Close, OfCenter, Claimable;
  }

  lemma RequestOnChecks(sys: Sys, e: Stamped, cfg: Config)
    requires WatchOk(sys) && (IsRequestOnRecords(e.event) || e.event.Sighting?)
    ensures ChecksStep(sys, e, Step(sys, e, cfg).db.checks, cfg)
  {
    hide UpsertAll, ToWrite, MergeSignal, Verified, ActionAt;
    if e.event.SaveStatuses? {
      UpsertAllKeepsTheRest(sys.db, ToWrite(sys.db.records, e.event.entries), e.at, cfg);
    }
  }

  lemma StepChecks(sys: Sys, e: Stamped, cfg: Config)
    requires WatchOk(sys)
    ensures ChecksStep(sys, e, Step(sys, e, cfg).db.checks, cfg)
  {
    hide Step;
    if e.event.WatchGoesOn? {
      WatchOnChecks(sys, e, cfg);
    } else if IsRequestOnRecords(e.event) || e.event.Sighting? {
      RequestOnChecks(sys, e, cfg);
    } else {
      OthersKeepRecords(sys, e, cfg);
    }
  }

  // ---- histories --------------------------------------------------------------------

  ghost predicate AcceptedFor(run: Run, i: nat, key: SignalKey, cfg: Config)
    requires i < |run.events|
  {
    var e := run.events[i].event;
    IsAccepted(StateAt(run, i, cfg), e) && key == (e.session, e.student, e.kind)
  }

  // Every reading recorded for one signal row in the first `n` events, oldest first.
  ghost function Readings(run: Run, n: nat, key: SignalKey, cfg: Config): seq<Reading>
    requires n <= |run.events|
  {
    if n == 0 then []
    else
      var earlier := Readings(run, n - 1, key, cfg);
      if AcceptedFor(run, n - 1, key, cfg)
      then earlier + [Reading(run.events[n - 1].event.value, run.events[n - 1].at)]
      else earlier
  }

  /** In every reachable state each signal row is the fold of its full reading history. */
  lemma {:induction false} SignalRowsAreTheirHistories(run: Run, n: nat, key: SignalKey, cfg: Config)
    requires n <= |run.events|
    ensures SignalAt(StateAt(run, n, cfg).db.signals, key) == SignalRow(Readings(run, n, key, cfg), cfg.verify)
  {
    hide Effect;
    if n > 0 {
      SignalRowsAreTheirHistories(run, n - 1, key, cfg);
      StepSignals(StateAt(run, n - 1, cfg), run.events[n - 1], cfg);
      var earlier := Readings(run, n - 1, key, cfg);
      if AcceptedFor(run, n - 1, key, cfg) {
        assert Readings(run, n, key, cfg)[..|earlier|] == earlier;
      }
    }
  }

  /** Recording a sighting leaves "pending" exactly when the full histories of both signals, this
      reading included, are evidence. */
  lemma RecordSignalExact(run: Run, n: nat, session: nat, student: Student, kind: Kind, value: real, now: int, cfg: Config)
    requires n <= |run.events| && session < |StateAt(run, n, cfg).db.sessions|
    ensures var before := StateAt(run, n, cfg).db;
            var history := Readings(run, n, (session, student, kind), cfg) + [Reading(value, now)];
            var other := Readings(run, n, (session, student, Other(kind)), cfg);
            RecordSignal(before, session, student, kind, value, now, cfg).1 != Pending
            <==> IsEvidence(kind, history, now, cfg.verify) && IsEvidence(Other(kind), other, now, cfg.verify)
  {
    hide Step, StateAt, IsEvidence, Verified, RecordSignal, IsLatestRun;
    var key := (session, student, kind);
    var history := Readings(run, n, key, cfg) + [Reading(value, now)];
    var other := Readings(run, n, (session, student, Other(kind)), cfg);
    SignalRowsAreTheirHistories(run, n, key, cfg);
    SignalRowsAreTheirHistories(run, n, (session, student, Other(kind)), cfg);
    RecordSignalOutcome(StateAt(run, n, cfg).db, session, student, kind, value, now, cfg);
    assert history[..|history| - 1] == Readings(run, n, key, cfg);
    if kind == Face { VerifiedExact(history, other, now, cfg.verify); }
    else { VerifiedExact(other, history, now, cfg.verify); }
  }

  lemma RecordSignalOutcome(db: Db, session: nat, student: Student, kind: Kind, value: real, now: int, cfg: Config)
    requires session < |db.sessions|
    ensures var next := Some(MergeSignal(SignalAt(db.signals, (session, student, kind)), value, now, cfg.verify));
            var other := SignalAt(db.signals, (session, student, Other(kind)));
            RecordSignal(db, session, student, kind, value, now, cfg).1 != Pending
            <==> if kind == Face then Verified(next, other, now, cfg.verify) else Verified(other, next, now, cfg.verify)
  {
  }

  lemma {:induction false} SessionsOnlyGrow(run: Run, m: nat, n: nat, cfg: Config)
    requires m <= n <= |run.events|
    ensures |StateAt(run, m, cfg).db.sessions| <= |StateAt(run, n, cfg).db.sessions|
    ensures forall k :: 0 <= k < |StateAt(run, m, cfg).db.sessions| ==>
              SameSession(StateAt(run, m, cfg).db.sessions[k], StateAt(run, n, cfg).db.sessions[k])
    decreases n
  {
    hide Effect;
    if m < n {
      SessionsOnlyGrow(run, m, n - 1, cfg);
      StepSessions(StateAt(run, n - 1, cfg), run.events[n - 1], cfg);
    }
  }

  // The student was seen, by face or tag, in a session of this day.
  ghost predicate SightedOn(run: Run, i: nat, student: Student, day: Day, cfg: Config)
    requires i < |run.events|
  {
    var e := run.events[i].event;
    && IsAccepted(StateAt(run, i, cfg), e)
    && e.student == student
    && StateAt(run, i, cfg).db.sessions[e.session].date == day
  }

  // A prompt of this student and day was claimed with the answer "still here".
  ghost predicate SaidStillHere(run: Run, i: nat, student: Student, day: Day, cfg: Config)
    requires i < |run.events|
  {
    var e := run.events[i];
    && e.event.AnswerCheck? && e.event.stillHere
    && IsOpen(StateAt(run, i, cfg).db.checks, e.event.id, e.at, cfg)
    && StateAt(run, i, cfg).db.checks[e.event.id].student == student
    && StateAt(run, i, cfg).db.checks[e.event.id].date == day
  }

  ghost predicate SeenNoEarlierThan(db: Db, session: nat, student: Student, kind: Kind, day: Day, at: int) {
    && session < |db.sessions| && db.sessions[session].date == day
    && (session, student, kind) in db.signals
    && db.signals[(session, student, kind)].lastSeenAt >= at
  }

  lemma {:induction false} SightingsAreKept(run: Run, i: nat, n: nat, cfg: Config)
    requires Timely(run) && i < n <= |run.events| && IsAccepted(StateAt(run, i, cfg), run.events[i].event)
    ensures var e := run.events[i].event;
            SeenNoEarlierThan(StateAt(run, n, cfg).db, e.session, e.student, e.kind,
                              StateAt(run, i, cfg).db.sessions[e.session].date, run.events[i].at)
    decreases n
  {
    hide Effect;
    StepSignals(StateAt(run, n - 1, cfg), run.events[n - 1], cfg);
    StepSessions(StateAt(run, n - 1, cfg), run.events[n - 1], cfg);
    if i < n - 1 {
      SightingsAreKept(run, i, n - 1, cfg);
    }
  }

  lemma {:induction false} LatestSignalIsLatest(sessions: seq<Session>, signals: map<SignalKey, Signal>,
                                                student: Student, kind: Kind, day: Day, id: nat)
    requires id < |sessions| && sessions[id].date == day && (id, student, kind) in signals
    ensures var latest := LatestSignal(sessions, signals, student, kind, day);
            latest.Some? && latest.value.lastSeenAt >= signals[(id, student, kind)].lastSeenAt
  {
    var last := |sessions| - 1;
    if id < last {
      LatestSignalIsLatest(sessions[..last], signals, student, kind, day, id);
    }
  }

  lemma {:induction false} AnswersAreKept(run: Run, i: nat, n: nat, cfg: Config)
    requires i < n <= |run.events|
    requires run.events[i].event.AnswerCheck?
    requires IsOpen(StateAt(run, i, cfg).db.checks, run.events[i].event.id, run.events[i].at, cfg)
    ensures var e := run.events[i].event;
            var before := StateAt(run, i, cfg).db.checks[e.id];
            && e.id < |StateAt(run, n, cfg).db.checks|
            && StateAt(run, n, cfg).db.checks[e.id]
               == before.(prompt := before.prompt.(answeredAt := Some(run.events[i].at)),
                          answer := Some(if e.stillHere then StillHere else PickedUp))
    decreases n
  {
    hide Effect;
    StepChecks(StateAt(run, n - 1, cfg), run.events[n - 1], cfg);
    if i < n - 1 {
      AnswersAreKept(run, i, n - 1, cfg);
    }
  }

  // ---- clocks -----------------------------------------------------------------------

  function TickNow(w: Watch): int
    requires !w.Idle?
  {
    match w
    case Began(start, _) => start
    case AtCenter(t) => t.now
    case AtEyes(t, _, _) => t.now
    case AtRead(t, _) => t.now
    case AtStudents(t, _, _, _, _) => t.now
  }

  // The watch's run keeps its time until it ends; only a begin gives it a new one.
  lemma StepWatch(sys: Sys, e: Stamped, cfg: Config)
    requires WatchOk(sys)
    ensures var sys' := Step(sys, e, cfg);
            sys'.watch.Idle? || (sys.watch.Idle? && e.event.TickBegins? && TickNow(sys'.watch) == e.at)
            || (!sys.watch.Idle? && TickNow(sys'.watch) == TickNow(sys.watch))
  {
  }

  ghost predicate FindsDown(sys: Sys, e: Event) {
    e.WatchGoesOn? && sys.watch.AtEyes? && !HardwareUp(sys, sys.watch.center, sys.watch.session, sys.watch.tick.now)
  }

  lemma StepMemory(sys: Sys, e: Stamped, cfg: Config)
    requires WatchOk(sys)
    ensures var sys' := Step(sys, e, cfg);
            if e.event.ProcessRestarts? then sys'.mem == Memory(e.at, map[], map[]) && sys'.watch.Idle?
            else
              && sys'.mem.healthySince == sys.mem.healthySince
              && sys'.mem.lastFrameAt == (if e.event.CameraFrame? then sys.mem.lastFrameAt[e.event.center := e.at]
                                          else sys.mem.lastFrameAt)
              && sys'.mem.unhealthyAt == if FindsDown(sys, e.event)
                                         then sys.mem.unhealthyAt[sys.watch.center := sys.watch.tick.now]
                                         else sys.mem.unhealthyAt
  {
  }

  // Nothing the watch remembers lies in the future, nor after the run in progress began.
  ghost predicate MemoryBefore(mem: Memory, time: int) {
    && 0 <= mem.healthySince <= time
    && (forall c :: c in mem.unhealthyAt ==> mem.healthySince <= mem.unhealthyAt[c] <= time)
  }

  ghost predicate ClocksAgree(sys: Sys, clock: int) {
    && MemoryBefore(sys.mem, clock)
    && (!sys.watch.Idle? ==> MemoryBefore(sys.mem, TickNow(sys.watch)) && TickNow(sys.watch) <= clock)
  }

  lemma {:induction false} ClocksAlwaysAgree(run: Run, n: nat, cfg: Config)
    requires Timely(run) && n <= |run.events|
    ensures ClocksAgree(StateAt(run, n, cfg), Clock(run, n))
  {
    hide Effect;
    if n > 0 {
      ClocksAlwaysAgree(run, n - 1, cfg);
      var sys, e := StateAt(run, n - 1, cfg), run.events[n - 1];
      StepWatch(sys, e, cfg);
      StepMemory(sys, e, cfg);
      assert Clock(run, n - 1) <= e.at;
    }
  }
}

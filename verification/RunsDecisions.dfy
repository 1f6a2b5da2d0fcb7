/** What is decided about a student, exactly: when they are taken to have arrived, when the watch marks them, when
    it asks, when it takes a pickup back; each stated over what had happened, not over what is computed. */
module RunsDecisions {
  import opened Options
  import opened SchoolTime
  import opened Signals
  import opened PickupPolicy
  import opened Attendance
  import opened Requests
  import opened Runs
  import opened RunsHardware
  import opened RunsWatch
  import opened RunsPrompts
  import opened RunsPickup
  import opened RunsLimits
  import opened RunsResponse

  // ---- arrival ---------------------------------------------------------------------------------

  // A recorded score is the average of the latest unbroken run of these readings.
  ghost predicate IsAverageOf(score: real, history: seq<Reading>, cfg: Config) {
    exists m {:trigger IsLatestRun(history, m, cfg.verify)} ::
      IsLatestRun(history, m, cfg.verify) && score == SmoothedScore(history[|history| - m..])
  }

  ghost predicate BothHistoriesConvince(run: Run, n: nat, session: nat, student: Student, now: int, cfg: Config)
    requires n <= |run.events|
  {
    && IsEvidence(Face, Readings(run, n, (session, student, Face), cfg), now, cfg.verify)
    && IsEvidence(Ble, Readings(run, n, (session, student, Ble), cfg), now, cfg.verify)
  }

  lemma ScoreIsAverage(run: Run, n: nat, key: SignalKey, now: int, cfg: Config)
    requires n <= |run.events|
    ensures var db, history := StateAt(run, n, cfg).db, Readings(run, n, key, cfg);
            && (Convinces(db.signals, key, now, cfg) <==> IsEvidence(key.2, history, now, cfg.verify))
            && (key in db.signals ==> IsAverageOf(db.signals[key].score, history, cfg))
  {
    hide StateAt, Readings;
    var db, history := StateAt(run, n, cfg).db, Readings(run, n, key, cfg);
    SignalRowsAreTheirHistories(run, n, key, cfg);
    SignalPresentExact(key.2, history, now, cfg.verify);
    if history != [] {
      SignalRowExact(history, cfg.verify);
    }
  }

  /** A sighting makes a student present, arrived now, exactly when all face and all tag readings of the session,
      this one included, are evidence and no present or excused record is in the way; the verification row then
      holds the averages of both latest runs. */
  lemma ArrivesExactly(run: Run, n: nat, cfg: Config)
    requires n < |run.events| && IsAccepted(StateAt(run, n, cfg), run.events[n].event)
    ensures var db, after, e, now := StateAt(run, n, cfg).db, StateAt(run, n + 1, cfg).db, run.events[n].event, run.events[n].at;
            var key := (e.student, db.sessions[e.session].date);
            if BothHistoriesConvince(run, n + 1, e.session, e.student, now, cfg) && (key in db.records ==> db.records[key].status == Absent)
            then && OthersKept(db, after, key)
                 && key in after.records && after.records[key] == Record(Present, Some(now), None, false)
                 && key in after.verifications
                 && var v := after.verifications[key];
                    && v.session == e.session && v.verifiedAt == now
                    && IsAverageOf(v.faceDistance, Readings(run, n + 1, (e.session, e.student, Face), cfg), cfg)
                    && IsAverageOf(v.bleRssi, Readings(run, n + 1, (e.session, e.student, Ble), cfg), cfg)
            else after.records == db.records && after.verifications == db.verifications
  {
    hide Step, StateAt, Readings, Moved, Convinces, IsEvidence, IsAverageOf;
    NextState(run, n, cfg);
    var sys, e, now := StateAt(run, n, cfg), run.events[n].event, run.events[n].at;
    assert run.events[n] == Stamped(now, Sighting(e.session, e.student, e.kind, e.value));
    SightingExactly(sys, e.session, e.student, e.kind, e.value, now, cfg);
    ScoreIsAverage(run, n + 1, (e.session, e.student, Face), now, cfg);
    ScoreIsAverage(run, n + 1, (e.session, e.student, Ble), now, cfg);
  }

  // ---- the decision about a waiting student ------------------------------------------------

  lemma DecideMeans(checks: seq<Check>, student: Student, day: Day, now: int, since: int, absentMs: int, clock: int)
    requires forall k :: 0 <= k < |checks| ==> PromptOk(checks[k], clock) && checks[k].prompt.createdAt <= now
    requires Spaced(checks)
    ensures var action := DecidePickupAction(now, since, LastCheck(checks, student, day), absentMs);
            var free := forall k :: 0 <= k < |checks| && IsOf(checks[k], student, day) ==>
                          checks[k].prompt.answeredAt.Some? || checks[k].prompt.expiresAt <= now;
            && (action == Action.MarkPickedUp <==> free && since + absentMs <= now)
            && (action == AskTeacher
                <==> free && now < since + absentMs && since + 60_000 <= now
                     && forall k :: 0 <= k < |checks| && IsOf(checks[k], student, day) && since < checks[k].prompt.createdAt ==>
                          checks[k].prompt.expiresAt + 60_000 <= now)
  {
    LastCheckIsLast(checks, student, day);
    var last := LastCheck(checks, student, day);
    if last.Some? {
      var k :| 0 <= k < |checks| && IsOf(checks[k], student, day) && checks[k].prompt == last.value
               && forall j :: k < j < |checks| ==> !IsOf(checks[j], student, day);
      forall i | 0 <= i < |checks| && IsOf(checks[i], student, day)
        ensures i == k || checks[i].prompt.createdAt + 60_000 <= checks[k].prompt.createdAt
        ensures i == k || checks[i].prompt.expiresAt <= checks[k].prompt.createdAt
      {
        assert i <= k;
        assert PromptOk(checks[i], clock);
      }
      assert PromptOk(checks[k], clock);
    }
  }

  // At step `n` the watch is about to decide about this student's day.
  ghost predicate DecidesAbout(run: Run, n: nat, key: Key, cfg: Config)
    requires n < |run.events|
  {
    var w := StateAt(run, n, cfg).watch;
    && run.events[n].event.WatchGoesOn? && w.AtStudents? && w.pending != []
    && key == (w.pending[0].student, Today(w.tick.now, cfg))
  }

  // Nothing known of the student for `absentMs`, and no prompt open among those the watch read.
  ghost predicate HasGone(run: Run, n: nat, key: Key, cfg: Config)
    requires n < |run.events| && DecidesAbout(run, n, key, cfg)
  {
    var w := StateAt(run, n, cfg).watch;
    && w.tick.readAt < w.seen.readAt < n
    && NoOpenPrompt(StateAt(run, w.seen.readAt, cfg).db, key, w.tick.now)
    && NoTraceAfter(run, n, key, w.tick.now - cfg.pickup.absentMs, cfg)
  }

  // Nothing known for a minute but not yet for `absentMs`, no prompt open, and every prompt of this very
  // absence over for a minute.
  ghost predicate IsMissed(run: Run, n: nat, key: Key, cfg: Config)
    requires n < |run.events| && DecidesAbout(run, n, key, cfg)
  {
    var w := StateAt(run, n, cfg).watch;
    w.tick.readAt < w.seen.readAt < n &&
    var read := StateAt(run, w.seen.readAt, cfg).db;
    && NoOpenPrompt(read, key, w.tick.now)
    && !NoTraceAfter(run, n, key, w.tick.now - cfg.pickup.absentMs, cfg)
    && NoTraceAfter(run, n, key, w.tick.now - 60_000, cfg)
    && forall k :: 0 <= k < |read.checks| && IsOf(read.checks[k], key.0, key.1)
                   && NoTraceAfter(run, n, key, read.checks[k].prompt.createdAt - 1, cfg) ==>
         read.checks[k].prompt.expiresAt + 60_000 <= w.tick.now
  }

  lemma ActionIsExact(run: Run, n: nat, key: Key, cfg: Config)
    requires Timely(run) && n < |run.events| && DecidesAbout(run, n, key, cfg)
    ensures ActionAt(StateAt(run, n, cfg), cfg) == Action.MarkPickedUp <==> HasGone(run, n, key, cfg)
    ensures ActionAt(StateAt(run, n, cfg), cfg) == AskTeacher <==> IsMissed(run, n, key, cfg)
  {
    hide StateAt, NoTraceAfter, EvidenceOf, AbsentSince, DecidePickupAction, LastCheck, Spaced, PromptOk;
    var w := StateAt(run, n, cfg).watch;
    WatchAlwaysKnows(run, n, cfg);
    var now, since, read := w.tick.now, SinceAt(StateAt(run, n, cfg), cfg), StateAt(run, w.seen.readAt, cfg);
    PromptsStayDisciplined(run, w.seen.readAt, cfg);
    DecideMeans(w.seen.checks, key.0, key.1, now, since, cfg.pickup.absentMs, Clock(run, w.seen.readAt));
    SinceIsExact(run, n, now - cfg.pickup.absentMs, cfg);
    SinceIsExact(run, n, now - 60_000, cfg);
    forall k | 0 <= k < |read.db.checks|
      ensures since < read.db.checks[k].prompt.createdAt <==> NoTraceAfter(run, n, key, read.db.checks[k].prompt.createdAt - 1, cfg)
    {
      SinceIsExact(run, n, read.db.checks[k].prompt.createdAt - 1, cfg);
    }
  }

  /** The watch marks a student exactly when nothing is known of them for `absentMs` and no prompt is open; it
      asks exactly when nothing is known for a minute, and the prompts of this absence have been over for a
      minute; and otherwise it leaves everything alone. Marking picks up a student who is still waiting, at the
      time of the run; asking adds one prompt of 15 s. */
  lemma DecidesExactly(run: Run, n: nat, key: Key, cfg: Config)
    requires Timely(run) && n < |run.events| && DecidesAbout(run, n, key, cfg)
    ensures var now, db, after := StateAt(run, n, cfg).watch.tick.now, StateAt(run, n, cfg).db, StateAt(run, n + 1, cfg).db;
            && StateAt(run, n + 1, cfg).mem == StateAt(run, n, cfg).mem
            && if HasGone(run, n, key, cfg) then TakenAway(db, after, key, now, true) && OnlyRecords(db, after)
               else if IsMissed(run, n, key, cfg)
               then after == db.(checks := db.checks + [Check(key.0, key.1, Prompt(now, now + 15_000, None), None)])
               else after == db
  {
    hide StateAt, ActionAt, HasGone, IsMissed;
    NextState(run, n, cfg);
    ActionIsExact(run, n, key, cfg);
    ActsExactly(StateAt(run, n, cfg), run.events[n], key, cfg);
  }

  lemma ActsExactly(sys: Sys, e: Stamped, key: Key, cfg: Config)
    requires WatchOk(sys) && e.event.WatchGoesOn? && sys.watch.AtStudents? && sys.watch.pending != []
    requires key == (sys.watch.pending[0].student, Today(sys.watch.tick.now, cfg))
    ensures var sys', now, db := Step(sys, e, cfg), sys.watch.tick.now, sys.db;
            && sys'.mem == sys.mem
            && if ActionAt(sys, cfg) == Action.MarkPickedUp then TakenAway(db, sys'.db, key, now, true) && OnlyRecords(db, sys'.db)
               else if ActionAt(sys, cfg) == AskTeacher
               then sys'.db == db.(checks := db.checks + [Check(key.0, key.1, Prompt(now, now + 15_000, None), None)])
               else sys'.db == db
  {
    hide ActionFor;
  }

  // ---- the undo of an automatic pickup -------------------------------------------------------

  ghost predicate HasRow(sessions: seq<Session>, signals: map<SignalKey, Signal>, id: nat, student: Student, kind: Kind, day: Day) {
    id < |sessions| && sessions[id].date == day && (id, student, kind) in signals
  }

  // The row seen last among the day's sessions; of rows seen at the same time, the older session's.
  ghost predicate IsNewestRow(sessions: seq<Session>, signals: map<SignalKey, Signal>, id: nat, student: Student, kind: Kind, day: Day) {
    && HasRow(sessions, signals, id, student, kind, day)
    && forall j: nat :: HasRow(sessions, signals, j, student, kind, day) && j != id ==>
         if j < id then signals[(j, student, kind)].lastSeenAt < signals[(id, student, kind)].lastSeenAt
         else signals[(j, student, kind)].lastSeenAt <= signals[(id, student, kind)].lastSeenAt
  }

  // One session more: the newest row stays the newest unless the new session's was seen later.
  lemma NewestOfOneMore(sessions: seq<Session>, signals: map<SignalKey, Signal>, student: Student, kind: Kind, day: Day, id: nat)
    requires sessions != [] && IsNewestRow(sessions[..|sessions| - 1], signals, id, student, kind, day)
    ensures var last := |sessions| - 1;
            if HasRow(sessions, signals, last, student, kind, day)
               && signals[(last, student, kind)].lastSeenAt > signals[(id, student, kind)].lastSeenAt
            then IsNewestRow(sessions, signals, last, student, kind, day)
            else IsNewestRow(sessions, signals, id, student, kind, day)
  {
    var last := |sessions| - 1;
    forall j: nat | j < last
      ensures HasRow(sessions[..last], signals, j, student, kind, day) <==> HasRow(sessions, signals, j, student, kind, day) {}
    assert forall j: nat :: HasRow(sessions, signals, j, student, kind, day) ==> j < last || j == last;
  }

  ghost predicate NoRow(sessions: seq<Session>, signals: map<SignalKey, Signal>, student: Student, kind: Kind, day: Day) {
    forall id: nat :: !HasRow(sessions, signals, id, student, kind, day)
  }

  lemma FirstRowIsNewest(sessions: seq<Session>, signals: map<SignalKey, Signal>, student: Student, kind: Kind, day: Day)
    requires sessions != [] && NoRow(sessions[..|sessions| - 1], signals, student, kind, day)
    ensures var last := |sessions| - 1;
            if HasRow(sessions, signals, last, student, kind, day) then IsNewestRow(sessions, signals, last, student, kind, day)
            else NoRow(sessions, signals, student, kind, day)
  {
    var last := |sessions| - 1;
    forall j: nat | j < last ensures !HasRow(sessions, signals, j, student, kind, day) {
      assert !HasRow(sessions[..last], signals, j, student, kind, day);
    }
  }

  lemma {:induction false} LatestSignalExactly(sessions: seq<Session>, signals: map<SignalKey, Signal>, student: Student, kind: Kind, day: Day)
    ensures var latest := LatestSignal(sessions, signals, student, kind, day);
            if latest.Some?
            then exists id: nat :: IsNewestRow(sessions, signals, id, student, kind, day) && latest == SignalAt(signals, (id, student, kind))
            else NoRow(sessions, signals, student, kind, day)
  {
    hide IsNewestRow, NoRow;
    if sessions != [] {
      var last := |sessions| - 1;
      LatestSignalExactly(sessions[..last], signals, student, kind, day);
      var best := LatestSignal(sessions[..last], signals, student, kind, day);
      if best.Some? {
        var id: nat :| IsNewestRow(sessions[..last], signals, id, student, kind, day) && best == SignalAt(signals, (id, student, kind));
        NewestOfOneMore(sessions, signals, student, kind, day, id);
      } else {
        FirstRowIsNewest(sessions, signals, student, kind, day);
      }
    } else {
      EmptyHasNoRow(signals, student, kind, day);
    }
  }

  lemma EmptyHasNoRow(signals: map<SignalKey, Signal>, student: Student, kind: Kind, day: Day)
    ensures NoRow([], signals, student, kind, day)
  {
  }

  lemma NewestIsUnique(sessions: seq<Session>, signals: map<SignalKey, Signal>, a: nat, b: nat, student: Student, kind: Kind, day: Day)
    requires IsNewestRow(sessions, signals, a, student, kind, day) && IsNewestRow(sessions, signals, b, student, kind, day)
    ensures a == b
  {
  }

  // The student's newest readings of this kind on this day, among all recorded in the first `n` events, were
  // taken after `since` and are evidence at `now`.
  ghost predicate SeenSince(run: Run, n: nat, key: Key, kind: Kind, since: int, now: int, cfg: Config)
    requires n <= |run.events|
  {
    exists id: nat ::
      && IsNewestRow(StateAt(run, n, cfg).db.sessions, StateAt(run, n, cfg).db.signals, id, key.0, kind, key.1)
      && IsEvidence(kind, Readings(run, n, (id, key.0, kind), cfg), now, cfg.verify)
      && since < Last(Readings(run, n, (id, key.0, kind), cfg)).at
  }

  function Last<T>(s: seq<T>): T
    requires s != []
  {
    s[|s| - 1]
  }

  lemma SeenSinceMeans(run: Run, n: nat, key: Key, kind: Kind, since: int, now: int, cfg: Config)
    requires n <= |run.events|
    ensures var db := StateAt(run, n, cfg).db;
            var latest := LatestSignal(db.sessions, db.signals, key.0, kind, key.1);
            SeenSince(run, n, key, kind, since, now, cfg)
            <==> latest.Some? && since < latest.value.lastSeenAt && IsSignalPresent(kind, latest, now, cfg.verify)
  {
    hide StateAt, LatestSignal, IsSignalPresent, IsEvidence, IsNewestRow, Readings;
    var db := StateAt(run, n, cfg).db;
    LatestSignalExactly(db.sessions, db.signals, key.0, kind, key.1);
    forall id: nat | IsNewestRow(db.sessions, db.signals, id, key.0, kind, key.1)
      ensures LatestSignal(db.sessions, db.signals, key.0, kind, key.1) == SignalAt(db.signals, (id, key.0, kind))
      ensures var history := Readings(run, n, (id, key.0, kind), cfg);
              var row := SignalAt(db.signals, (id, key.0, kind));
              && row.Some? && history != [] && Last(history).at == row.value.lastSeenAt
              && (IsSignalPresent(kind, row, now, cfg.verify) <==> IsEvidence(kind, history, now, cfg.verify))
    {
      NewestHistory(run, n, id, key, kind, now, cfg);
    }
  }

  lemma NewestHistory(run: Run, n: nat, id: nat, key: Key, kind: Kind, now: int, cfg: Config)
    requires n <= |run.events|
    requires IsNewestRow(StateAt(run, n, cfg).db.sessions, StateAt(run, n, cfg).db.signals, id, key.0, kind, key.1)
    ensures var db, history := StateAt(run, n, cfg).db, Readings(run, n, (id, key.0, kind), cfg);
            var row := SignalAt(db.signals, (id, key.0, kind));
            && row.Some? && history != [] && Last(history).at == row.value.lastSeenAt
            && LatestSignal(db.sessions, db.signals, key.0, kind, key.1) == row
            && (IsSignalPresent(kind, row, now, cfg.verify) <==> IsEvidence(kind, history, now, cfg.verify))
  {
    hide StateAt, LatestSignal, IsSignalPresent, IsEvidence, Readings;
    var db, history := StateAt(run, n, cfg).db, Readings(run, n, (id, key.0, kind), cfg);
    LatestSignalExactly(db.sessions, db.signals, key.0, kind, key.1);
    assert HasRow(db.sessions, db.signals, id, key.0, kind, key.1);
    var j: nat :| IsNewestRow(db.sessions, db.signals, j, key.0, kind, key.1)
                  && LatestSignal(db.sessions, db.signals, key.0, kind, key.1) == SignalAt(db.signals, (j, key.0, kind));
    NewestIsUnique(db.sessions, db.signals, id, j, key.0, kind, key.1);
    SignalRowsAreTheirHistories(run, n, (id, key.0, kind), cfg);
    SignalPresentExact(kind, history, now, cfg.verify);
  }

  // At step `n` the watch looks again at a student it read as picked up automatically.
  ghost predicate ReconsidersAt(run: Run, n: nat, key: Key, cfg: Config)
    requires n < |run.events|
  {
    var w := StateAt(run, n, cfg).watch;
    && run.events[n].event.WatchGoesOn? && w.AtStudents? && w.pending == [] && w.undo != []
    && key == (w.undo[0].student, Today(w.tick.now, cfg))
  }

  // Face and tag were both seen after the pickup the run read, and both are evidence at the time of the run.
  ghost predicate CameBack(run: Run, n: nat, key: Key, cfg: Config)
    requires n < |run.events| && ReconsidersAt(run, n, key, cfg)
  {
    var w := StateAt(run, n, cfg).watch;
    w.tick.readAt < w.seen.readAt < n &&
    var records := StateAt(run, w.tick.readAt, cfg).db.records;
    && key in records && records[key].pickedUpAuto && records[key].pickedUpAt.Some?
    && SeenSince(run, w.seen.readAt, key, Face, records[key].pickedUpAt.value, w.tick.now, cfg)
    && SeenSince(run, w.seen.readAt, key, Ble, records[key].pickedUpAt.value, w.tick.now, cfg)
  }

  lemma UndoIsReal(run: Run, n: nat, key: Key, cfg: Config)
    requires n < |run.events| && ReconsidersAt(run, n, key, cfg)
    ensures var w := StateAt(run, n, cfg).watch;
            && w.tick.readAt < w.seen.readAt < n
            && (SeenAgain(w.seen, w.undo[0], w.tick.now, cfg) <==> CameBack(run, n, key, cfg))
  {
    hide StateAt, LatestSignal, IsSignalPresent, SeenSince;
    var w := StateAt(run, n, cfg).watch;
    WatchAlwaysKnows(run, n, cfg);
    assert w.undo[0] in w.undo;
    var pickedUpAt := StateAt(run, w.tick.readAt, cfg).db.records[key].pickedUpAt.value;
    SeenSinceMeans(run, w.seen.readAt, key, Face, pickedUpAt, w.tick.now, cfg);
    SeenSinceMeans(run, w.seen.readAt, key, Ble, pickedUpAt, w.tick.now, cfg);
  }

  /** An automatic pickup is taken back exactly when the student came back before the run read the tables and
      the pickup is still automatic; nothing else changes then, and nothing at all otherwise. */
  lemma UndoesExactly(run: Run, n: nat, key: Key, cfg: Config)
    requires n < |run.events| && ReconsidersAt(run, n, key, cfg)
    ensures var db, after := StateAt(run, n, cfg).db, StateAt(run, n + 1, cfg).db;
            if CameBack(run, n, key, cfg) && key in db.records && db.records[key].pickedUpAuto && db.records[key].pickedUpAt.Some?
            then && OthersKept(db, after, key) && OnlyRecords(db, after) && after.verifications == db.verifications
                 && key in after.records
                 && after.records[key] == Record(db.records[key].status, db.records[key].arrivedAt, None, false)
            else after == db
  {
    hide StateAt, SeenAgain, CameBack;
    NextState(run, n, cfg);
    UndoIsReal(run, n, key, cfg);
  }
}

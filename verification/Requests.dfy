/** What each request and each step of the watch does to the tables, row by row and field by field. */
module Requests {
  import opened Options
  import opened SchoolTime
  import opened Signals
  import opened PickupPolicy
  import opened Attendance
  import opened RunsSessions

  function Today(now: int, cfg: Config): Day {
    (now + cfg.zone * 60_000) / 86_400_000
  }

  ghost predicate OthersKept(db: Db, db': Db, key: Key) {
    forall k: Key :: k != key ==> Untouched(db, db', k)
  }

  ghost predicate OnlyRecords(db: Db, db': Db) {
    && db'.sessions == db.sessions && db'.signals == db.signals && db'.checks == db.checks
    && db'.gatewaySeenAt == db.gatewaySeenAt
  }

  // A request changes rows, not what the process remembers nor where the watch stands.
  ghost predicate OnlyRows(sys: Sys, sys': Sys) {
    sys'.mem == sys.mem && sys'.watch == sys.watch
  }

  ghost predicate OnlySessions(db: Db, db': Db) {
    && db'.records == db.records && db'.verifications == db.verifications && db'.signals == db.signals
    && db'.checks == db.checks && db'.gatewaySeenAt == db.gatewaySeenAt
  }

  // The day starts from scratch: nothing of an earlier arrival, pickup or verification stays.
  ghost predicate FreshlyMarked(db': Db, key: Key, status: Status, now: int, cfg: Config) {
    && key in db'.records && key !in db'.verifications
    && db'.records[key].status == status
    && (db'.records[key].arrivedAt.Some? <==> status == Present && key.1 == Today(now, cfg))
    && (db'.records[key].arrivedAt.Some? ==> db'.records[key].arrivedAt.value == now)
    && db'.records[key].pickedUpAt == None && !db'.records[key].pickedUpAuto
  }

  /** Saving one status: a future day is refused; otherwise that student's day is marked from scratch, with an
      arrival now exactly for "present" today, and nothing else in the database changes. */
  lemma SaveExactly(sys: Sys, key: Key, status: Status, now: int, cfg: Config)
    requires WatchOk(sys)
    ensures var sys' := Step(sys, Stamped(now, SaveStatus(key, status)), cfg);
            && OnlyRows(sys, sys')
            && if key.1 > Today(now, cfg) then sys'.db == sys.db
               else FreshlyMarked(sys'.db, key, status, now, cfg) && OthersKept(sys.db, sys'.db, key) && OnlyRecords(sys.db, sys'.db)
  {
  }

  // ---- many statuses at once ---------------------------------------------------------

  // Entry `i` is about this record and asks for a status it does not have.
  ghost predicate IsNews(db: Db, entries: seq<Entry>, i: nat, key: Key) {
    && i < |entries| && entries[i].key == key
    && !(key in db.records && db.records[key].status == entries[i].status)
  }

  ghost predicate IsLastNews(db: Db, entries: seq<Entry>, i: nat, key: Key) {
    IsNews(db, entries, i, key) && forall j: nat :: i < j ==> !IsNews(db, entries, j, key)
  }

  lemma {:induction false} ToWriteAppends(records: map<Key, Record>, front: seq<Entry>, last: Entry)
    ensures ToWrite(records, front + [last])
         == ToWrite(records, front) + if StatusOf(records, last.key) == Some(last.status) then [] else [last]
  {
    if front != [] {
      ToWriteAppends(records, front[1..], last);
      assert (front + [last])[1..] == front[1..] + [last];
    } else {
      assert (front + [last])[1..] == [];
    }
  }

  ghost predicate NewsStored(db: Db, db': Db, entries: seq<Entry>, key: Key, now: int, cfg: Config) {
    && (forall i: nat :: IsLastNews(db, entries, i, key) ==> FreshlyMarked(db', key, entries[i].status, now, cfg))
    && ((forall i: nat :: !IsNews(db, entries, i, key)) ==> Untouched(db, db', key))
  }

  lemma {:induction false} WritingStoresNews(db: Db, entries: seq<Entry>, key: Key, now: int, cfg: Config)
    ensures NewsStored(db, UpsertAll(db, ToWrite(db.records, entries), now, cfg), entries, key, now, cfg)
  {
    hide FreshlyMarked, UpsertAll, ToWrite;
    if entries == [] {
      NothingWritten(db, now, cfg);
    } else {
      var front, last := entries[..|entries| - 1], entries[|entries| - 1];
      var written := ToWrite(db.records, front);
      assert entries == front + [last];
      WritingStoresNews(db, front, key, now, cfg);
      ToWriteAppends(db.records, front, last);
      if StatusOf(db.records, last.key) == Some(last.status) {
        assert written + [] == written;
        forall i: nat ensures IsNews(db, entries, i, key) <==> IsNews(db, front, i, key) {}
      } else {
        OneMoreWritten(db, written, last, key, now, cfg);
        if last.key == key {
          assert IsNews(db, entries, |front|, key);
        } else {
          forall i: nat ensures IsNews(db, entries, i, key) <==> IsNews(db, front, i, key) {}
        }
      }
    }
  }

  lemma NothingWritten(db: Db, now: int, cfg: Config)
    ensures UpsertAll(db, ToWrite(db.records, []), now, cfg) == db
  {
  }

  lemma OneMoreWritten(db: Db, written: seq<Entry>, last: Entry, key: Key, now: int, cfg: Config)
    ensures var before, after := UpsertAll(db, written, now, cfg), UpsertAll(db, written + [last], now, cfg);
            && (last.key == key ==> FreshlyMarked(after, key, last.status, now, cfg))
            && (last.key != key ==> Untouched(before, after, key))
            && (forall status :: last.key != key && FreshlyMarked(before, key, status, now, cfg) ==> FreshlyMarked(after, key, status, now, cfg))
  {
    assert (written + [last])[..|written|] == written;
  }

  /** Saving many: one future date refuses them all; otherwise each record ends as the last entry about it that
      asks for another status than it has says, and a record with no such entry stays as it is. */
  lemma BulkSaveExactly(sys: Sys, entries: seq<Entry>, key: Key, now: int, cfg: Config)
    requires WatchOk(sys)
    ensures var sys' := Step(sys, Stamped(now, SaveStatuses(entries)), cfg);
            && OnlyRows(sys, sys')
            && if exists i :: 0 <= i < |entries| && entries[i].key.1 > Today(now, cfg) then sys'.db == sys.db
               else NewsStored(sys.db, sys'.db, entries, key, now, cfg) && OnlyRecords(sys.db, sys'.db)
  {
    hide UpsertAll, ToWrite, NewsStored;
    WritingStoresNews(sys.db, entries, key, now, cfg);
    UpsertAllKeepsTheRest(sys.db, ToWrite(sys.db.records, entries), now, cfg);
  }

  // ---- pickups by hand and answers -----------------------------------------------------

  ghost predicate IsWaiting(db: Db, key: Key) {
    && key in db.records && db.records[key].status == Present
    && db.records[key].arrivedAt.Some? && db.records[key].pickedUpAt == None
  }

  // If the student was waiting they are picked up now; everything else stays.
  ghost predicate TakenAway(db: Db, db': Db, key: Key, now: int, auto: bool) {
    && OthersKept(db, db', key) && db'.verifications == db.verifications
    && if IsWaiting(db, key)
       then key in db'.records && db'.records[key] == Record(Present, db.records[key].arrivedAt, Some(now), auto)
       else Untouched(db, db', key)
  }

  lemma PickUpExactly(sys: Sys, student: Student, now: int, cfg: Config)
    requires WatchOk(sys)
    ensures var sys' := Step(sys, Stamped(now, PickUp(student)), cfg);
            && OnlyRows(sys, sys')
            && TakenAway(sys.db, sys'.db, (student, Today(now, cfg)), now, false) && OnlyRecords(sys.db, sys'.db)
  {
  }

  ghost predicate CanBeAnswered(db: Db, id: nat, now: int, cfg: Config) {
    && id < |db.checks| && db.checks[id].date == Today(now, cfg)
    && db.checks[id].prompt.answeredAt == None && now < db.checks[id].prompt.expiresAt
  }

  /** Answering an open prompt of today stores who was meant and what was said, once. "Still here" touches no
      record; "picked up" takes exactly the prompt's student away, if they were waiting. A prompt that is
      answered, has run out or is of another day changes nothing. */
  lemma AnswerExactly(sys: Sys, id: nat, stillHere: bool, now: int, cfg: Config)
    requires WatchOk(sys)
    ensures OnlyRows(sys, Step(sys, Stamped(now, AnswerCheck(id, stillHere)), cfg))
    ensures var db, after := sys.db, Step(sys, Stamped(now, AnswerCheck(id, stillHere)), cfg).db;
            if !CanBeAnswered(db, id, now, cfg) then after == db
            else
              var c := db.checks[id];
              && |after.checks| == |db.checks|
              && (forall k :: 0 <= k < |db.checks| && k != id ==> after.checks[k] == db.checks[k])
              && after.checks[id] == Check(c.student, c.date, Prompt(c.prompt.createdAt, c.prompt.expiresAt, Some(now)),
                                           if stillHere then Some(StillHere) else Some(PickedUp))
              && after.sessions == db.sessions && after.signals == db.signals && after.gatewaySeenAt == db.gatewaySeenAt
              && if stillHere then after.records == db.records && after.verifications == db.verifications
                 else TakenAway(db, after, (c.student, c.date), now, false)
  {
  }

  // ---- sightings -------------------------------------------------------------------------

  // How a reading moves its row: it goes on with the run if it came within the window, or starts a new one.
  ghost predicate Moved(before: map<SignalKey, Signal>, key: SignalKey, row: Signal, value: real, now: int, cfg: Config) {
    && row.lastSeenAt == now
    && if key in before && now <= before[key].lastSeenAt + cfg.verify.windowMs
       then row.hits == before[key].hits + 1 && row.score == (value + before[key].score) / 2.0
       else row.hits == 1 && row.score == value
  }

  // The session's row of this kind is fresh, long enough and good enough.
  ghost predicate Convinces(signals: map<SignalKey, Signal>, key: SignalKey, now: int, cfg: Config) {
    && key in signals
    && now <= signals[key].lastSeenAt + cfg.verify.windowMs
    && cfg.verify.minHits <= signals[key].hits
    && (key.2 == Face ==> signals[key].score <= cfg.verify.faceMaxDistance)
    && (key.2 == Ble ==> cfg.verify.bleMinRssi <= signals[key].score)
  }

  ghost predicate BothConvince(db: Db, session: nat, student: Student, now: int, cfg: Config) {
    Convinces(db.signals, (session, student, Face), now, cfg) && Convinces(db.signals, (session, student, Ble), now, cfg)
  }

  // Present, arrived now and waiting, on the evidence of exactly these two rows.
  ghost predicate ArrivedOn(after: Db, session: nat, key: Key, now: int) {
    && key in after.records && after.records[key] == Record(Present, Some(now), None, false)
    && (session, key.0, Face) in after.signals && (session, key.0, Ble) in after.signals
    && key in after.verifications
    && after.verifications[key] == Verification(session, after.signals[(session, key.0, Face)].score,
                                                after.signals[(session, key.0, Ble)].score, now)
  }

  lemma MergeMoves(before: map<SignalKey, Signal>, key: SignalKey, value: real, now: int, cfg: Config)
    ensures Moved(before, key, MergeSignal(SignalAt(before, key), value, now, cfg.verify), value, now, cfg)
  {
  }

  lemma VerifiedMeans(signals: map<SignalKey, Signal>, face: SignalKey, ble: SignalKey, now: int, cfg: Config)
    requires face.2 == Face && ble.2 == Ble
    ensures Verified(SignalAt(signals, face), SignalAt(signals, ble), now, cfg.verify)
       <==> Convinces(signals, face, now, cfg) && Convinces(signals, ble, now, cfg)
    ensures Convinces(signals, face, now, cfg) && Convinces(signals, ble, now, cfg) ==> face in signals && ble in signals
  {
  }

  /** A sighting moves its own signal row and no other. If both rows of the student in that session then
      convince, and the day has no record or an absent one, it becomes present, arrived now and waiting, with
      the evidence of exactly these two rows; in every other case no record changes. */
  lemma RecordSignalMoves(db: Db, session: nat, student: Student, kind: Kind, value: real, now: int, cfg: Config)
    requires session < |db.sessions|
    ensures var (after, outcome) := RecordSignal(db, session, student, kind, value, now, cfg);
            var key := (student, db.sessions[session].date);
            && (session, student, kind) in after.signals
            && Moved(db.signals, (session, student, kind), after.signals[(session, student, kind)], value, now, cfg)
            && after.signals - {(session, student, kind)} == db.signals - {(session, student, kind)}
            && after.sessions == db.sessions && after.checks == db.checks && after.gatewaySeenAt == db.gatewaySeenAt
            && (outcome == Pending <==> !BothConvince(after, session, student, now, cfg))
            && (outcome == NewlyVerified
                <==> BothConvince(after, session, student, now, cfg) && (key in db.records ==> db.records[key].status == Absent))
            && if outcome == NewlyVerified then ArrivedOn(after, session, key, now) && OthersKept(db, after, key)
               else after.records == db.records && after.verifications == db.verifications
  {
    hide MergeSignal, Verified, Moved, Convinces;
    MergeMoves(db.signals, (session, student, kind), value, now, cfg);
    VerifiedMeans(RecordSignal(db, session, student, kind, value, now, cfg).0.signals,
                  (session, student, Face), (session, student, Ble), now, cfg);
  }

  lemma SightingExactly(sys: Sys, session: nat, student: Student, kind: Kind, value: real, now: int, cfg: Config)
    requires WatchOk(sys) && session < |sys.db.sessions|
    ensures OnlyRows(sys, Step(sys, Stamped(now, Sighting(session, student, kind, value)), cfg))
    ensures var db, after := sys.db, Step(sys, Stamped(now, Sighting(session, student, kind, value)), cfg).db;
            var key := (student, db.sessions[session].date);
            && (session, student, kind) in after.signals
            && Moved(db.signals, (session, student, kind), after.signals[(session, student, kind)], value, now, cfg)
            && after.signals - {(session, student, kind)} == db.signals - {(session, student, kind)}
            && after.sessions == db.sessions && after.checks == db.checks && after.gatewaySeenAt == db.gatewaySeenAt
            && if BothConvince(after, session, student, now, cfg) && (key in db.records ==> db.records[key].status == Absent)
               then ArrivedOn(after, session, key, now) && OthersKept(db, after, key)
               else after.records == db.records && after.verifications == db.verifications
  {
    hide RecordSignal, BothConvince, ArrivedOn, OthersKept, Moved;
    RecordSignalMoves(sys.db, session, student, kind, value, now, cfg);
  }

  // ---- sessions ----------------------------------------------------------------------------

  ghost predicate RunsAt(sessions: seq<Session>, id: int, center: Center) {
    0 <= id < |sessions| && sessions[id].active && sessions[id].center == center
  }

  ghost predicate Ended(a: Session, b: Session, now: int) {
    b == Session(a.date, a.center, false, a.autoStarted, a.startedAt, Some(now))
  }

  // Exactly the rows that satisfy the condition are ended, now.
  ghost predicate EndsExactly(a: seq<Session>, b: seq<Session>, which: nat -> bool, now: int) {
    && |a| <= |b|
    && forall k: nat :: k < |a| ==> if which(k) then Ended(a[k], b[k], now) else b[k] == a[k]
  }

  /** Start: a session of today that runs at the center is kept and nothing changes; otherwise a leftover of an
      earlier day ends now, and one row is added: today's session of this center, running since now, not
      started by the watch. */
  lemma StartExactly(sys: Sys, center: Center, now: int, cfg: Config)
    requires WatchOk(sys) && OneActivePerCenter(sys.db.sessions)
    ensures var sys' := Step(sys, Stamped(now, PressStart(center)), cfg);
            var a, b := sys.db.sessions, sys'.db.sessions;
            && OnlyRows(sys, sys') && OnlySessions(sys.db, sys'.db)
            && if exists id: int :: RunsAt(a, id, center) && a[id].date == Today(now, cfg) then b == a
               else EndsExactly(a, b, (k: nat) => RunsAt(a, k, center), now) && |b| == |a| + 1
                    && b[|a|] == Session(Today(now, cfg), center, true, false, now, None)
  {
    hide StartSession, EndsExactly, OneActivePerCenter;
    StartRows(sys.db, center, now, cfg);
  }

  lemma OnlyOneRuns(sessions: seq<Session>, center: Center)
    requires OneActivePerCenter(sessions)
    ensures var active := FindActive(sessions, center);
            forall id: int :: RunsAt(sessions, id, center) <==> active == Some(id)
  {
    forall id: int | RunsAt(sessions, id, center) ensures FindActive(sessions, center) == Some(id) {
      TheActiveOne(sessions, id, center);
    }
  }

  lemma StartRows(db: Db, center: Center, now: int, cfg: Config)
    requires OneActivePerCenter(db.sessions)
    ensures var after := StartSession(db, center, now, cfg);
            var a, b := db.sessions, after.sessions;
            && after == db.(sessions := b)
            && if exists id: int :: RunsAt(a, id, center) && a[id].date == Today(now, cfg) then b == a
               else EndsExactly(a, b, (k: nat) => RunsAt(a, k, center), now) && |b| == |a| + 1
                    && b[|a|] == Session(Today(now, cfg), center, true, false, now, None)
  {
    var a, existing := db.sessions, FindActive(db.sessions, center);
    var closed := if existing.Some? then Close(a, existing.value, now) else a;
    NoneLeft(a, closed, existing, center, now);
    OnlyOneRuns(a, center);
    hide FindActive, OneActivePerCenter;
    if existing.Some? && a[existing.value].date == Today(now, cfg) {
      assert RunsAt(a, existing.value, center);
    }
  }

  lemma StopExactly(sys: Sys, center: Center, now: int, cfg: Config)
    requires WatchOk(sys)
    ensures var sys' := Step(sys, Stamped(now, PressStop(center)), cfg);
            var a, b := sys.db.sessions, sys'.db.sessions;
            && OnlyRows(sys, sys') && OnlySessions(sys.db, sys'.db)
            && |b| == |a| && EndsExactly(a, b, (k: nat) => RunsAt(a, k, center), now)
  {
  }

  /** The cleanup ends exactly the sessions that have run for more than twelve hours. */
  lemma CleanupExactly(sys: Sys, now: int, cfg: Config)
    requires WatchOk(sys)
    ensures var sys' := Step(sys, Stamped(now, StaleCleanup), cfg);
            var a, b := sys.db.sessions, sys'.db.sessions;
            && OnlyRows(sys, sys') && OnlySessions(sys.db, sys'.db)
            && |b| == |a|
            && EndsExactly(a, b, (k: nat) => k < |a| && a[k].active && a[k].startedAt + 12 * 3_600_000 < now, now)
  {
  }
}

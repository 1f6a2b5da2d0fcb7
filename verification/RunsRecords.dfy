/** What holds of every attendance record in every run, whoever writes it. */
module RunsRecords {
  import opened Options
  import opened SchoolTime
  import opened Signals
  import opened PickupPolicy
  import opened Attendance
  import opened Runs
  import opened RunsHardware
  import opened RunsWatch
  import opened RunsPrompts
  import opened RunsPickup
  import opened RunsLimits

  // ---- shape of a record ---------------------------------------------------------

  ghost predicate RecordOk(db: Db, key: Key) {
    && (key in db.records ==>
          var r := db.records[key];
          && (r.pickedUpAuto ==> r.pickedUpAt.Some?)
          && (r.pickedUpAt.Some? ==> r.status == Present && r.arrivedAt.Some?)
          && (r.arrivedAt.Some? ==> r.status == Present))
    && (key in db.verifications ==>
          && key in db.records
          && db.records[key].status == Present
          && db.records[key].arrivedAt == Some(db.verifications[key].verifiedAt))
  }

  /** In every reachable state: the automatic flag means a pickup time, a pickup time means present and
      arrived, an arrival means present, and a verification row means present since exactly `verifiedAt`. */
  lemma {:induction false} RecordsStayOk(run: Run, n: nat, key: Key, cfg: Config)
    requires n <= |run.events|
    ensures RecordOk(StateAt(run, n, cfg).db, key)
  {
    hide Effect, ActionAt;
    if n > 0 {
      RecordsStayOk(run, n - 1, key, cfg);
      StepRecords(StateAt(run, n - 1, cfg), run.events[n - 1], key, cfg);
    }
  }

  /** A teacher-made pickup is never cleared or changed by the watch, by sightings, by answers or by
      another pickup: only saving a status for that student and day can touch it. */
  lemma TeacherPickupStands(run: Run, n: nat, key: Key, cfg: Config)
    requires n < |run.events|
    requires var before := StateAt(run, n, cfg).db.records;
             key in before && before[key].pickedUpAt.Some? && !before[key].pickedUpAuto
    ensures || Untouched(StateAt(run, n, cfg).db, StateAt(run, n + 1, cfg).db, key)
            || Saved(run.events[n], StateAt(run, n + 1, cfg).db, key, cfg)
  {
    hide Effect, ActionAt;
    RecordsStayOk(run, n, key, cfg);
    StepRecords(StateAt(run, n, cfg), run.events[n], key, cfg);
  }

  // ---- a pickup whose check is out of date -------------------------------------------

  // The update of `markPickedUp` on its own: it is not guarded by what the request read before.
  function UpdateUnguarded(db: Db, key: Key, now: int): Db {
    if key !in db.records then db
    else db.(records := db.records[key := db.records[key].(pickedUpAt := Some(now), pickedUpAuto := false)])
  }

  /** When something came between, the record stays well-formed exactly if it still has an arrival, and
      the result is the guarded pickup exactly if it is still waiting, or was picked up by hand just now. */
  lemma StaleCheckExactly(db: Db, key: Key, now: int)
    requires RecordOk(db, key) && key in db.records
    ensures RecordOk(UpdateUnguarded(db, key, now), key) <==> db.records[key].arrivedAt.Some?
    ensures UpdateUnguarded(db, key, now) == MarkPickedUpGuarded(db, key, now, false)
       <==> AwaitsPickup(db, key) || (db.records[key].pickedUpAt == Some(now) && !db.records[key].pickedUpAuto)
  {
    assert UpdateUnguarded(db, key, now) == db ==> UpdateUnguarded(db, key, now).records[key] == db.records[key];
    if db.records[key].pickedUpAt == Some(now) && !db.records[key].pickedUpAuto {
      assert UpdateUnguarded(db, key, now).records == db.records;
    }
  }

  /** So a teacher's absent mark between the check and the update always leaves a picked up absentee. */
  lemma AbsentMarkInBetween(db: Db, key: Key, now: int, cfg: Config)
    requires AwaitsPickup(db, key) && RecordOk(db, key) && key.1 <= SchoolDay(now, cfg.zone)
    ensures !RecordOk(UpdateUnguarded(UpdateAttendance(db, key, Absent, now, cfg), key, now), key)
  {
    StaleCheckExactly(UpdateAttendance(db, key, Absent, now, cfg), key, now);
  }

  // ---- pickup after arrival ---------------------------------------------------------

  ghost predicate LeavesAfterArriving(db: Db, key: Key) {
    key in db.records && db.records[key].pickedUpAt.Some? && db.records[key].arrivedAt.Some? ==>
      db.records[key].arrivedAt.value <= db.records[key].pickedUpAt.value
  }

  // The watch, with the time its run began, marks a record whose arrival was written after that.
  ghost predicate MarksLateArrival(sys: Sys, e: Event, key: Key, cfg: Config) {
    && ActsOn(sys, e, key, cfg) && ActionAt(sys, cfg) == Action.MarkPickedUp
    && AwaitsPickup(sys.db, key) && sys.db.records[key].arrivedAt.value > sys.watch.tick.now
  }

  /** A pickup is never earlier than its arrival, except exactly when the watch marks a record that was
      re-marked as arrived between the start of its run and its update. */
  lemma LeavesAfterArrivingExactly(run: Run, n: nat, key: Key, cfg: Config)
    requires Timely(run) && n < |run.events|
    requires LeavesAfterArriving(StateAt(run, n, cfg).db, key)
    ensures LeavesAfterArriving(StateAt(run, n + 1, cfg).db, key)
       <==> !MarksLateArrival(StateAt(run, n, cfg), run.events[n].event, key, cfg)
  {
    hide ActionAt, UpsertAll, ToWrite, RecordSignal;
    var sys, e := StateAt(run, n, cfg), run.events[n];
    ArrivalsPast(run, n, key, cfg);
    StepRecords(sys, e, key, cfg);
    if ActsOn(sys, e.event, key, cfg) {
      ActedRecord(sys, e, key, cfg);
    }
  }

  lemma ActedRecord(sys: Sys, e: Stamped, key: Key, cfg: Config)
    requires WatchOk(sys) && ActsOn(sys, e.event, key, cfg)
    ensures var db' := Step(sys, e, cfg).db;
            if ActionAt(sys, cfg) == Action.MarkPickedUp && AwaitsPickup(sys.db, key)
            then Picked(sys.db, db', key, sys.watch.tick.now, true)
            else Untouched(sys.db, db', key)
  {
  }

  lemma NothingAtTheStart(run: Run, key: Key, cfg: Config)
    ensures LeavesAfterArriving(StateAt(run, 0, cfg).db, key)
  {
  }

  lemma {:induction false} LeavesAfterArrivingInRuns(run: Run, n: nat, key: Key, cfg: Config)
    requires Timely(run) && n <= |run.events|
    requires forall i: nat :: i < n ==> !MarksLateArrival(StateAt(run, i, cfg), run.events[i].event, key, cfg)
    ensures LeavesAfterArriving(StateAt(run, n, cfg).db, key)
  {
    hide Step, StateAt, MarksLateArrival, LeavesAfterArriving;
    if n == 0 {
      NothingAtTheStart(run, key, cfg);
    } else {
      LeavesAfterArrivingInRuns(run, n - 1, key, cfg);
      assert !MarksLateArrival(StateAt(run, n - 1, cfg), run.events[n - 1].event, key, cfg);
      LeavesAfterArrivingExactly(run, n - 1, key, cfg);
    }
  }

  // ---- arrival accounting -------------------------------------------------------------

  ghost predicate VerifiesAt(run: Run, i: nat, key: Key, cfg: Config)
    requires i < |run.events|
  {
    var db, e := StateAt(run, i, cfg).db, run.events[i];
    && e.event.Sighting? && e.event.session < |db.sessions|
    && key == (e.event.student, db.sessions[e.event.session].date)
    && RecordSignal(db, e.event.session, e.event.student, e.event.kind, e.event.value, e.at, cfg).1 == NewlyVerified
  }

  // A teacher's write turns the record absent (from anything else, or from nothing).
  ghost predicate TurnsAbsentAt(run: Run, i: nat, key: Key, cfg: Config)
    requires i < |run.events|
  {
    && IsManualWrite(run.events[i].event)
    && StatusOf(StateAt(run, i, cfg).db.records, key) != Some(Absent)
    && StatusOf(StateAt(run, i + 1, cfg).db.records, key) == Some(Absent)
  }

  ghost function Verifications(run: Run, n: nat, key: Key, cfg: Config): nat
    requires n <= |run.events|
  {
    if n == 0 then 0
    else Verifications(run, n - 1, key, cfg) + (if VerifiesAt(run, n - 1, key, cfg) then 1 else 0)
  }

  ghost function AbsentMarks(run: Run, n: nat, key: Key, cfg: Config): nat
    requires n <= |run.events|
  {
    if n == 0 then 0
    else AbsentMarks(run, n - 1, key, cfg) + (if TurnsAbsentAt(run, n - 1, key, cfg) then 1 else 0)
  }

  lemma SightingRecords(run: Run, i: nat, key: Key, cfg: Config)
    requires i < |run.events| && run.events[i].event.Sighting?
    ensures var db, db' := StateAt(run, i, cfg).db, StateAt(run, i + 1, cfg).db;
            if VerifiesAt(run, i, key, cfg) then Arrived(db, db', key, run.events[i].at) else Untouched(db, db', key)
  {
    hide MergeSignal, Verified;
  }

  /** Automatic arrival never overwrites a present or excused record. */
  lemma ArrivalsRespectTeachers(run: Run, i: nat, key: Key, cfg: Config)
    requires i < |run.events| && run.events[i].event.Sighting?
    requires StatusOf(StateAt(run, i, cfg).db.records, key) in {Some(Present), Some(Excused)}
    ensures Untouched(StateAt(run, i, cfg).db, StateAt(run, i + 1, cfg).db, key)
  {
    hide Effect, RecordSignal;
    SightingRecords(run, i, key, cfg);
  }

  /** A student is verified on a day at most once, plus once for every time a teacher marked them absent. */
  lemma {:induction false} VerificationsAreAccountedFor(run: Run, n: nat, key: Key, cfg: Config)
    requires n <= |run.events|
    ensures var status := StatusOf(StateAt(run, n, cfg).db.records, key);
            Verifications(run, n, key, cfg)
            <= AbsentMarks(run, n, key, cfg) + (if status in {None, Some(Absent)} then 0 else 1)
  {
    hide Effect, ActionAt, RecordSignal;
    if n > 0 {
      VerificationsAreAccountedFor(run, n - 1, key, cfg);
      StepRecords(StateAt(run, n - 1, cfg), run.events[n - 1], key, cfg);
      if run.events[n - 1].event.Sighting? {
        SightingRecords(run, n - 1, key, cfg);
      }
    }
  }

  // ---- no flapping ----------------------------------------------------------------------

  // The record shows the student back since `t`: a later arrival, or a later face sighting that day.
  ghost predicate BackSince(db: Db, key: Key, t: int) {
    var seen := SeenAt(LatestSignal(db.sessions, db.signals, key.0, Face, key.1));
    || (ArrivalOf(db, key).Some? && ArrivalOf(db, key).value >= t)
    || (seen.Some? && seen.value >= t)
  }

  // After an automatic pickup at `t`: still picked up (at `t` or later if automatic), or no longer
  // present and arrived, or back since `t`.
  ghost predicate PickedOrBack(db: Db, key: Key, t: int) {
    && (key in db.records && db.records[key].pickedUpAuto && db.records[key].pickedUpAt.Some? ==>
          db.records[key].pickedUpAt.value >= t)
    && (AwaitsPickup(db, key) ==> BackSince(db, key, t))
  }

  // The run of the watch that picked the student up will not decide about them again.
  ghost predicate DoneWith(w: Watch, student: Student, center: Center) {
    HasTick(w) ==>
      if w.AtStudents? && w.center == center then NoneFor(w.pending, student) && (w.tick.todo != [] ==> w.center !in w.tick.todo[1..])
      else center !in TickOf(w).todo
  }

  lemma DoneWithStays(sys: Sys, e: Stamped, student: Student, center: Center, cfg: Config)
    requires WatchOk(sys) && HasTick(sys.watch) && CenterOk(sys.watch)
    requires DoneWith(sys.watch, student, center)
    ensures DoneWith(Step(sys, e, cfg).watch, student, center)
  {
    hide Effect;
    StepMoves(sys, e, cfg);
  }

  lemma {:induction false} NotAgainInThisRun(run: Run, m: nat, n: nat, key: Key, cfg: Config)
    requires Timely(run) && m < n <= |run.events| && AutoMarks(run, m, key, cfg)
    requires HasTick(StateAt(run, n, cfg).watch) && TickOf(StateAt(run, n, cfg).watch).readAt < m
    ensures DoneWith(StateAt(run, n, cfg).watch, key.0, CenterOf(key.0, cfg))
    decreases n
  {
    hide Effect, ActionAt;
    if m + 1 < n {
      TickUnbroken(run, n - 1, n, cfg);
      NotAgainInThisRun(run, m, n - 1, key, cfg);
      WatchAlwaysKnows(run, n - 1, cfg);
      DoneWithStays(StateAt(run, n - 1, cfg), run.events[n - 1], key.0, CenterOf(key.0, cfg), cfg);
    } else {
      OnlyTheWatchAutoMarks(run, m, key, cfg);
      WatchAlwaysKnows(run, m, cfg);
      var w := StateAt(run, m, cfg).watch;
      assert w.pending[0] in w.pending;
      PromptingMovesOn(StateAt(run, m, cfg), run.events[m], cfg);
    }
  }

  lemma {:induction false} TicksAdvance(run: Run, m: nat, n: nat, t: int, cfg: Config)
    requires Timely(run) && m <= n <= |run.events|
    requires !StateAt(run, m, cfg).watch.Idle? && TickNow(StateAt(run, m, cfg).watch) == t
    ensures !StateAt(run, n, cfg).watch.Idle? ==> t <= TickNow(StateAt(run, n, cfg).watch)
    ensures t <= Clock(run, n)
    decreases n
  {
    hide Effect;
    ClocksAlwaysAgree(run, m, cfg);
    if m < n {
      TicksAdvance(run, m, n - 1, t, cfg);
      StepWatch(StateAt(run, n - 1, cfg), run.events[n - 1], cfg);
    }
  }

  // The undo list holds students the same run did not pick up.
  lemma UndoIsOlder(run: Run, m: nat, n: nat, key: Key, cfg: Config)
    requires Timely(run) && m < n < |run.events| && AutoMarks(run, m, key, cfg)
    requires UndoesFor(StateAt(run, n, cfg), run.events[n].event, key, cfg)
    ensures m < StateAt(run, n, cfg).watch.tick.readAt
  {
    hide Effect, ActionAt, SeenAgain;
    var q := StateAt(run, n, cfg).watch.tick.readAt;
    WatchAlwaysKnows(run, n, cfg);
    OnlyTheWatchAutoMarks(run, m, key, cfg);
    WatchAlwaysKnows(run, m, cfg);
    var u, w := StateAt(run, m, cfg).watch, StateAt(run, n, cfg).watch;
    assert u.pending[0] in u.pending && w.undo[0] in w.undo;
    if q < m {
      TickUnbroken(run, m, n, cfg);
      assert false;
    }
  }

  // One step some time after the pickup at `t`: only an undo could take it back unseen.
  lemma StepStaysPickedOrBack(run: Run, n: nat, key: Key, t: int, cfg: Config)
    requires Timely(run) && n < |run.events| && t <= run.events[n].at
    requires PickedOrBack(StateAt(run, n, cfg).db, key, t)
    requires StateAt(run, n, cfg).watch.AtStudents? ==> t <= StateAt(run, n, cfg).watch.tick.now
    requires UndoesFor(StateAt(run, n, cfg), run.events[n].event, key, cfg) ==> BackSince(StateAt(run, n + 1, cfg).db, key, t)
    ensures PickedOrBack(StateAt(run, n + 1, cfg).db, key, t)
  {
    hide Step, StateAt, ActionAt, SeenAgain, LatestSignal;
    NextState(run, n, cfg);
    StepRecords(StateAt(run, n, cfg), run.events[n], key, cfg);
    SightingsOnlyAdvance(run, n, n + 1, key.0, Face, key.1, cfg);
  }

  lemma {:induction false} StaysPickedOrComesBack(run: Run, m: nat, n: nat, key: Key, cfg: Config)
    requires Timely(run) && m < n <= |run.events| && AutoMarks(run, m, key, cfg)
    ensures StateAt(run, m, cfg).watch.AtStudents?
    ensures PickedOrBack(StateAt(run, n, cfg).db, key, StateAt(run, m, cfg).watch.tick.now)
    decreases n
  {
    hide Step, StateAt, ActionAt, SeenAgain, BackSince;
    OnlyTheWatchAutoMarks(run, m, key, cfg);
    var t := StateAt(run, m, cfg).watch.tick.now;
    if m + 1 < n {
      var sys, e := StateAt(run, n - 1, cfg), run.events[n - 1];
      StaysPickedOrComesBack(run, m, n - 1, key, cfg);
      TicksAdvance(run, m, n - 1, t, cfg);
      assert t <= e.at;
      if UndoesFor(sys, e.event, key, cfg) {
        UndoIsOlder(run, m, n - 1, key, cfg);
        assert sys.watch.tick.readAt < n - 1 by { WatchAlwaysKnows(run, n - 1, cfg); }
        StaysPickedOrComesBack(run, m, sys.watch.tick.readAt, key, cfg);
        UndoneWasSeen(run, n - 1, key, t, cfg);
      }
      StepStaysPickedOrBack(run, n - 1, key, t, cfg);
    }
  }

  lemma UndoneWasSeen(run: Run, n: nat, key: Key, t: int, cfg: Config)
    requires Timely(run) && n < |run.events| && UndoesFor(StateAt(run, n, cfg), run.events[n].event, key, cfg)
    requires StateAt(run, n, cfg).watch.tick.readAt <= n
    requires PickedOrBack(StateAt(run, StateAt(run, n, cfg).watch.tick.readAt, cfg).db, key, t)
    ensures BackSince(StateAt(run, n + 1, cfg).db, key, t)
  {
    hide Effect, LatestSignal, Verified;
    var w := StateAt(run, n, cfg).watch;
    WatchAlwaysKnows(run, n, cfg);
    assert w.undo[0] in w.undo;
    SightingsOnlyAdvance(run, w.seen.readAt, n + 1, key.0, Face, key.1, cfg);
  }

  lemma BackSinceIsEvidence(run: Run, n: nat, key: Key, t: int, cfg: Config)
    requires Timely(run) && n < |run.events| && ActsOn(StateAt(run, n, cfg), run.events[n].event, key, cfg)
    requires StateAt(run, n, cfg).watch.tick.readAt <= n
    requires BackSince(StateAt(run, StateAt(run, n, cfg).watch.tick.readAt, cfg).db, key, t)
    ensures t <= SinceAt(StateAt(run, n, cfg), cfg)
  {
    hide Effect, LatestSignal, LatestOf, AbsentSince, StudentWindowStart, StillHereAt;
    var sys := StateAt(run, n, cfg);
    var w := sys.watch;
    WatchAlwaysKnows(run, n, cfg);
    StudentsOkMeans(run, n, w, cfg);
    SightingsOnlyAdvance(run, w.tick.readAt, w.seen.readAt, key.0, Face, key.1, cfg);
    AbsentSinceExact(EvidenceOf(w.seen, w.pending[0], UnhealthyAtFor(sys.mem, w.center), w.tick.now, cfg));
  }

  /** No flapping: any two automatic pickups of one student on one day are at least `absentMs` apart,
      whatever teachers, sightings and the watch itself did in between. */
  lemma NoFlapping(run: Run, m: nat, n: nat, key: Key, cfg: Config)
    requires Timely(run) && m < n < |run.events| && AutoMarks(run, m, key, cfg) && AutoMarks(run, n, key, cfg)
    ensures StateAt(run, m, cfg).watch.AtStudents? && StateAt(run, n, cfg).watch.AtStudents?
    ensures StateAt(run, m, cfg).watch.tick.now + cfg.pickup.absentMs <= StateAt(run, n, cfg).watch.tick.now
  {
    hide Step, StateAt, EvidenceOf, AbsentSince, BackSince, IsCandidate;
    OnlyTheWatchAutoMarks(run, m, key, cfg);
    OnlyTheWatchAutoMarks(run, n, key, cfg);
    WatchAlwaysKnows(run, m, cfg);
    WatchAlwaysKnows(run, n, cfg);
    var t, w := StateAt(run, m, cfg).watch.tick.now, StateAt(run, n, cfg).watch;
    StudentsOkMeans(run, n, w, cfg);
    assert w.pending[0] in w.pending;
    if w.tick.readAt < m {
      NotAgainInThisRun(run, m, n, key, cfg);
      assert false;
    }
    assert m < w.tick.readAt;
    StaysPickedOrComesBack(run, m, w.tick.readAt, key, cfg);
    BackSinceIsEvidence(run, n, key, t, cfg);
  }
}

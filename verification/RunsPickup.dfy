/** Automatic pickup over whole runs: when it may happen, when it must, how often it can. */
module RunsPickup {
  import opened Options
  import opened SchoolTime
  import opened Signals
  import opened PickupPolicy
  import opened Attendance
  import opened Runs
  import opened RunsHardware
  import opened RunsWatch
  import opened RunsPrompts

  // Step `n` turns an unpicked record into an automatically picked up one.
  ghost predicate AutoMarks(run: Run, n: nat, key: Key, cfg: Config)
    requires n < |run.events|
  {
    var before, after := StateAt(run, n, cfg).db.records, StateAt(run, n + 1, cfg).db.records;
    && key in before && before[key].pickedUpAt == None
    && key in after && after[key].pickedUpAt.Some? && after[key].pickedUpAuto
  }

  lemma OnlyTheWatchAutoMarks(run: Run, n: nat, key: Key, cfg: Config)
    requires n < |run.events| && AutoMarks(run, n, key, cfg)
    ensures var sys := StateAt(run, n, cfg);
            && ActsOn(sys, run.events[n].event, key, cfg)
            && ActionAt(sys, cfg) == Action.MarkPickedUp
            && Picked(sys.db, StateAt(run, n + 1, cfg).db, key, sys.watch.tick.now, true)
  {
    hide Effect, ActionAt;
    StepRecords(StateAt(run, n, cfg), run.events[n], key, cfg);
  }

  ghost function SinceAt(sys: Sys, cfg: Config): int
    requires sys.watch.AtStudents? && sys.watch.pending != []
  {
    var w := sys.watch;
    AbsentSince(EvidenceOf(w.seen, w.pending[0], UnhealthyAtFor(sys.mem, w.center), w.tick.now, cfg))
  }

  // When the student's own pickup window opens on that day.
  function WindowOpensAt(key: Key, cfg: Config): int {
    var afternoon := key.0 in cfg.roster && cfg.roster[key.0].session == Afternoon;
    key.1 * 86_400_000 + ((if afternoon then cfg.pickup.afternoonStartMin else cfg.pickup.morningStartMin) - cfg.zone) * 60_000
  }

  // A tracked student in the minutes of their own window, on that day.
  ghost predicate IsWatched(key: Key, now: int, cfg: Config) {
    && key.0 in cfg.roster && cfg.roster[key.0].tracked
    && WindowOpensAt(key, cfg) <= now
    && now - now % 60_000 < WindowOpensAt(key, cfg) + cfg.pickup.windowMs
  }

  lemma OpensAtItsStart(student: Student, now: int, cfg: Config)
    ensures StudentWindowStart(student, now, cfg) == WindowOpensAt((student, SchoolDay(now, cfg.zone)), cfg)
  {
    FloorToMinute(now, cfg.zone);
  }

  lemma WatchedExactly(student: Student, now: int, cfg: Config)
    ensures IsWatched((student, SchoolDay(now, cfg.zone)), now, cfg)
       <==> student in cfg.roster && cfg.roster[student].tracked && cfg.roster[student].session in TypesOpen(now, cfg)
  {
    if student in cfg.roster {
      FloorToMinute(now, cfg.zone);
      assert now / MINUTE_MS * MINUTE_MS == now - now % 60_000;
      TypesOpenAre(now, cfg);
    }
  }

  lemma TypesOpenAre(now: int, cfg: Config)
    ensures forall s :: s in TypesOpen(now, cfg) <==> InWindow(s, SchoolMinutesOfDay(now, cfg.zone), cfg.pickup)
  {
  }

  // Every trace the run holds of the student being in the center is at or before `limit`, as far as
  // the watch could know it: sightings and answers up to the moment it read those tables.
  ghost predicate NoTraceAfter(run: Run, n: nat, key: Key, limit: int, cfg: Config)
    requires n <= |run.events| && StateAt(run, n, cfg).watch.AtStudents?
    requires StateAt(run, n, cfg).watch.seen.readAt <= n && StateAt(run, n, cfg).watch.tick.readAt <= n
  {
    var w := StateAt(run, n, cfg).watch;
    && (forall i: nat :: i < w.seen.readAt && SightedOn(run, i, key.0, key.1, cfg) ==> run.events[i].at <= limit)
    && (forall i: nat :: i < w.seen.readAt && SaidStillHere(run, i, key.0, key.1, cfg) ==> run.events[i].at <= limit)
    && (forall i: nat :: i < n && HardwareDown(run, i, w.center, cfg) ==> DownAt(run, i, cfg) <= limit)
    && run.start <= limit
    && WindowOpensAt(key, cfg) <= limit
    && AwaitsPickup(StateAt(run, w.tick.readAt, cfg).db, key)
    && StateAt(run, w.tick.readAt, cfg).db.records[key].arrivedAt.value <= limit
  }

  // The teacher has no question about this student left to answer at `now`.
  ghost predicate NoOpenPrompt(db: Db, key: Key, now: int) {
    forall k :: 0 <= k < |db.checks| && IsOf(db.checks[k], key.0, key.1) ==>
      db.checks[k].prompt.answeredAt.Some? || db.checks[k].prompt.expiresAt <= now
  }

  lemma SightingBeforeSince(run: Run, n: nat, i: nat, cfg: Config)
    requires Timely(run) && n <= |run.events|
    requires var w := StateAt(run, n, cfg).watch; w.AtStudents? && w.pending != [] && StudentsOk(run, n, w, cfg)
                                                  && i < w.seen.readAt
    requires var w := StateAt(run, n, cfg).watch;
             SightedOn(run, i, w.pending[0].student, SchoolDay(w.tick.now, cfg.zone), cfg)
    ensures run.events[i].at <= SinceAt(StateAt(run, n, cfg), cfg)
  {
    hide Effect;
    var sys := StateAt(run, n, cfg);
    var w, e := sys.watch, run.events[i].event;
    var day := SchoolDay(w.tick.now, cfg.zone);
    SightingsAreKept(run, i, w.seen.readAt, cfg);
    LatestSignalIsLatest(w.seen.sessions, w.seen.signals, e.student, e.kind, day, e.session);
    var evidence := EvidenceOf(w.seen, w.pending[0], UnhealthyAtFor(sys.mem, w.center), w.tick.now, cfg);
    AbsentSinceExact(evidence);
    assert evidence.lastFaceAt == SeenAt(LatestSignal(w.seen.sessions, w.seen.signals, e.student, Face, day));
    assert evidence.lastBleAt == SeenAt(LatestSignal(w.seen.sessions, w.seen.signals, e.student, Ble, day));
    assert e.kind == Face || e.kind == Ble;
  }

  lemma AnswerBeforeSince(run: Run, n: nat, i: nat, cfg: Config)
    requires Timely(run) && n <= |run.events|
    requires var w := StateAt(run, n, cfg).watch; w.AtStudents? && w.pending != [] && StudentsOk(run, n, w, cfg)
                                                  && i < w.seen.readAt
    requires var w := StateAt(run, n, cfg).watch;
             SaidStillHere(run, i, w.pending[0].student, SchoolDay(w.tick.now, cfg.zone), cfg)
    ensures run.events[i].at <= SinceAt(StateAt(run, n, cfg), cfg)
  {
    hide Effect;
    var sys := StateAt(run, n, cfg);
    var w, e := sys.watch, run.events[i].event;
    var day := SchoolDay(w.tick.now, cfg.zone);
    AnswersAreKept(run, i, w.seen.readAt, cfg);
    PromptsStayDisciplined(run, w.seen.readAt, cfg);
    StillHereIsLatest(w.seen.checks, w.pending[0].student, day, e.id, Clock(run, w.seen.readAt));
    AbsentSinceExact(EvidenceOf(w.seen, w.pending[0], UnhealthyAtFor(sys.mem, w.center), w.tick.now, cfg));
  }

  lemma {:induction false} HealthySinceStart(run: Run, n: nat, cfg: Config)
    requires Timely(run) && n <= |run.events|
    ensures run.start <= StateAt(run, n, cfg).mem.healthySince
  {
    hide Step;
    if n > 0 {
      HealthySinceStart(run, n - 1, cfg);
      StepMemory(StateAt(run, n - 1, cfg), run.events[n - 1], cfg);
    } else {
      StartsHealthy(run, cfg);
    }
  }

  lemma StartsHealthy(run: Run, cfg: Config)
    ensures StateAt(run, 0, cfg).mem == Memory(run.start, map[], map[])
  {
  }

  // At the watch's decision about a student, its absence starts no earlier than any trace of that student.
  lemma SinceIsSound(run: Run, n: nat, cfg: Config)
    requires Timely(run) && n <= |run.events|
    requires StateAt(run, n, cfg).watch.AtStudents? && StateAt(run, n, cfg).watch.pending != []
    ensures var sys := StateAt(run, n, cfg);
            && StudentsOk(run, n, sys.watch, cfg)
            && NoTraceAfter(run, n, (sys.watch.pending[0].student, SchoolDay(sys.watch.tick.now, cfg.zone)), SinceAt(sys, cfg), cfg)
  {
    hide Effect, SightedOn, SaidStillHere, HardwareDown, StudentsOk;
    var sys := StateAt(run, n, cfg);
    var w := sys.watch;
    WatchAlwaysKnows(run, n, cfg);
    StudentsOkMeans(run, n, w, cfg);
    var who, day := w.pending[0].student, SchoolDay(w.tick.now, cfg.zone);
    forall i: nat | i < w.seen.readAt && SightedOn(run, i, who, day, cfg) ensures run.events[i].at <= SinceAt(sys, cfg) {
      SightingBeforeSince(run, n, i, cfg);
    }
    forall i: nat | i < w.seen.readAt && SaidStillHere(run, i, who, day, cfg) ensures run.events[i].at <= SinceAt(sys, cfg) {
      AnswerBeforeSince(run, n, i, cfg);
    }
    AbsentSinceExact(EvidenceOf(w.seen, w.pending[0], UnhealthyAtFor(sys.mem, w.center), w.tick.now, cfg));
    OpensAtItsStart(who, w.tick.now, cfg);
    HealthySinceStart(run, n, cfg);
    ClocksAlwaysAgree(run, n, cfg);
    forall i: nat | i < n && HardwareDown(run, i, w.center, cfg) ensures DownAt(run, i, cfg) <= SinceAt(sys, cfg) {
      OutagesAreKept(run, i, n, w.center, cfg);
    }
  }

  lemma StudentsOkMeans(run: Run, n: nat, w: Watch, cfg: Config)
    requires n <= |run.events| && w.AtStudents? && w.pending != [] && StudentsOk(run, n, w, cfg) && TickOk(run, n, w.tick, cfg)
    ensures w.tick.readAt < w.seen.readAt < n
    ensures w.pending[0] in w.tick.candidates && CenterOf(w.pending[0].student, cfg) == w.center
    ensures var db := StateAt(run, w.tick.readAt, cfg).db;
            var key := (w.pending[0].student, SchoolDay(w.tick.now, cfg.zone));
            && AwaitsPickup(db, key) && db.records[key].arrivedAt == Some(w.pending[0].arrivedAt)
            && IsWatched(key, w.tick.now, cfg)
  {
    hide StateAt, TypesOpen, IsWatched;
    assert w.pending[0] in w.pending;
    WatchedExactly(w.pending[0].student, w.tick.now, cfg);
  }

  lemma TracesOnlyLoosen(run: Run, n: nat, key: Key, a: int, b: int, cfg: Config)
    requires n <= |run.events| && StateAt(run, n, cfg).watch.AtStudents? && a <= b
    requires StateAt(run, n, cfg).watch.seen.readAt <= n && StateAt(run, n, cfg).watch.tick.readAt <= n
    requires NoTraceAfter(run, n, key, a, cfg)
    ensures NoTraceAfter(run, n, key, b, cfg)
  {
    hide StateAt, SightedOn, SaidStillHere, HardwareDown;
  }

  /** Automatic pickup is sound in every interleaving of the watch with sightings, answers, manual edits,
      session changes, failures and restarts: when it marks a student at its time `t`, the student is tracked
      and `t` in their window, the gateway and their center's camera were heard within 30 s of `t`, nothing
      the run holds of the student is later than `t - absentMs`, and no prompt about them is open. */
  lemma AutoPickupIsSound(run: Run, n: nat, key: Key, cfg: Config)
    requires Timely(run) && n < |run.events| && AutoMarks(run, n, key, cfg)
    ensures var w := StateAt(run, n, cfg).watch;
            && w.AtStudents? && w.tick.readAt < w.seen.readAt < n && w.center == CenterOf(key.0, cfg)
            && StateAt(run, w.seen.readAt, cfg).watch.AtRead? && StateAt(run, w.tick.readAt, cfg).watch.Began?
            && StateAt(run, n + 1, cfg).db.records[key].pickedUpAt == Some(w.tick.now)
            && key.1 == SchoolDay(w.tick.now, cfg.zone)
            && IsWatched(key, w.tick.now, cfg)
            && (exists k: nat :: k < w.seen.readAt && LookedWithOpenEyes(run, k, w.tick, w.center, cfg))
            && NoTraceAfter(run, n, key, w.tick.now - cfg.pickup.absentMs, cfg)
            && NoOpenPrompt(StateAt(run, n, cfg).db, key, w.tick.now)
  {
    hide Step, StateAt, EvidenceOf, AbsentSince, LookedWithOpenEyes, NoTraceAfter, IsWatched;
    var sys := StateAt(run, n, cfg);
    var w := sys.watch;
    OnlyTheWatchAutoMarks(run, n, key, cfg);
    ReadsWithOpenEyes(run, n, cfg);
    SinceIsSound(run, n, cfg);
    WatchAlwaysKnows(run, n, cfg);
    StudentsOkMeans(run, n, w, cfg);
    assert SinceAt(sys, cfg) <= w.tick.now - cfg.pickup.absentMs;
    TracesOnlyLoosen(run, n, key, SinceAt(sys, cfg), w.tick.now - cfg.pickup.absentMs, cfg);
    PromptsStayDisciplined(run, n, cfg);
    forall k | 0 <= k < |sys.db.checks| && IsOf(sys.db.checks[k], key.0, key.1)
      ensures sys.db.checks[k].prompt.answeredAt.Some? || sys.db.checks[k].prompt.expiresAt <= w.tick.now
    {
      PromptAgain(sys, Clock(run, n), k, cfg);
    }
  }
}

/** Limits on the watch over whole runs: prompts per absence, how long an absence can go unmarked,
    and how soon a student can be marked again. */
module RunsLimits {
  import opened Options
  import opened SchoolTime
  import opened Signals
  import opened PickupPolicy
  import opened Attendance
  import opened Runs
  import opened RunsHardware
  import opened RunsWatch
  import opened RunsPrompts
  import opened RunsPickup

  ghost predicate Deciding(sys: Sys, e: Event, key: Key, cfg: Config) {
    ActsOn(sys, e, key, cfg)
  }

  ghost function DecisionTime(run: Run, n: nat, cfg: Config): int {
    if n < |run.events| && StateAt(run, n, cfg).watch.AtStudents? then StateAt(run, n, cfg).watch.tick.now else 0
  }

  // Step `n` asks the teacher about this student, in the absence that began at `since`.
  ghost predicate PromptsAt(run: Run, n: nat, key: Key, since: int, cfg: Config)
    requires n < |run.events|
  {
    var sys := StateAt(run, n, cfg);
    Deciding(sys, run.events[n].event, key, cfg) && ActionAt(sys, cfg) == AskTeacher && SinceAt(sys, cfg) == since
  }

  // ---- prompts per absence -----------------------------------------------------

  lemma {:induction false} ChecksOnlyGrow(run: Run, m: nat, n: nat, cfg: Config)
    requires m <= n <= |run.events|
    ensures var a, b := StateAt(run, m, cfg).db.checks, StateAt(run, n, cfg).db.checks;
            |a| <= |b| && forall k :: 0 <= k < |a| ==> SameCheck(a[k], b[k])
    decreases n
  {
    hide Effect, Prompts;
    if m < n {
      ChecksOnlyGrow(run, m, n - 1, cfg);
      var sys, e := StateAt(run, n - 1, cfg), run.events[n - 1];
      StepChecks(sys, e, cfg);
      var mid, after := sys.db.checks, StateAt(run, n, cfg).db.checks;
      forall k | 0 <= k < |StateAt(run, m, cfg).db.checks| ensures SameCheck(mid[k], after[k]) {
        assert CheckStep(sys, e, k, mid[k], after[k], cfg);
      }
    }
  }

  lemma PromptIsStored(run: Run, m: nat, n: nat, cfg: Config)
    requires m < n <= |run.events| && Prompts(StateAt(run, m, cfg), run.events[m].event, cfg)
    ensures var sys := StateAt(run, m, cfg);
            var id, checks := |sys.db.checks|, StateAt(run, n, cfg).db.checks;
            && id < |checks|
            && IsOf(checks[id], sys.watch.pending[0].student, SchoolDay(sys.watch.tick.now, cfg.zone))
            && checks[id].prompt.createdAt == sys.watch.tick.now
            && checks[id].prompt.expiresAt == sys.watch.tick.now + PROMPT_TTL_MS
  {
    hide Step, StateAt, Prompts, ActionAt;
    assert StateAt(run, m + 1, cfg) == Step(StateAt(run, m, cfg), run.events[m], cfg) by { NextState(run, m, cfg); }
    StepChecks(StateAt(run, m, cfg), run.events[m], cfg);
    ChecksOnlyGrow(run, m + 1, n, cfg);
    var id := |StateAt(run, m, cfg).db.checks|;
    assert SameCheck(StateAt(run, m + 1, cfg).db.checks[id], StateAt(run, n, cfg).db.checks[id]);
  }

  lemma PromptsOfOneAbsenceAreApart(run: Run, m: nat, n: nat, key: Key, since: int, cfg: Config)
    requires Timely(run) && m < n < |run.events|
    requires PromptsAt(run, m, key, since, cfg) && PromptsAt(run, n, key, since, cfg)
    ensures StateAt(run, m, cfg).watch.tick.now + PROMPT_TTL_MS + PROMPT_EVERY_MS <= StateAt(run, n, cfg).watch.tick.now
  {
    hide Effect, EvidenceOf, AbsentSince;
    PromptIsStored(run, m, n, cfg);
    PromptsStayDisciplined(run, n, cfg);
    PromptAgain(StateAt(run, n, cfg), Clock(run, n), |StateAt(run, m, cfg).db.checks|, cfg);
    PromptTime(run, m, key, since, cfg);
  }

  lemma PromptTime(run: Run, n: nat, key: Key, since: int, cfg: Config)
    requires Timely(run) && n < |run.events| && PromptsAt(run, n, key, since, cfg)
    ensures since + PROMPT_EVERY_MS <= StateAt(run, n, cfg).watch.tick.now < since + cfg.pickup.absentMs
  {
    hide Effect, EvidenceOf, AbsentSince;
    var w := StateAt(run, n, cfg).watch;
    WatchAlwaysKnows(run, n, cfg);
    PromptsStayDisciplined(run, w.seen.readAt, cfg);
    LastCheckIsLast(w.seen.checks, key.0, key.1);
  }

  /** One absence makes at most ceil((absentMs - 60000) / 75000) prompts. */
  lemma {:induction false} PromptsPerAbsence(run: Run, steps: seq<nat>, key: Key, since: int, cfg: Config)
    requires Timely(run) && steps != []
    requires forall k :: 0 <= k < |steps| ==> steps[k] < |run.events| && PromptsAt(run, steps[k], key, since, cfg)
    requires forall j, k :: 0 <= j < k < |steps| ==> steps[j] < steps[k]
    ensures since + PROMPT_EVERY_MS + (|steps| - 1) * (PROMPT_TTL_MS + PROMPT_EVERY_MS)
            <= DecisionTime(run, steps[|steps| - 1], cfg)
    ensures var slot := PROMPT_TTL_MS + PROMPT_EVERY_MS;
            |steps| <= (cfg.pickup.absentMs - PROMPT_EVERY_MS + slot - 1) / slot
  {
    hide StateAt;
    var last := |steps| - 1;
    PromptTime(run, steps[last], key, since, cfg);
    if last > 0 {
      PromptsPerAbsence(run, steps[..last], key, since, cfg);
      PromptsOfOneAbsenceAreApart(run, steps[last - 1], steps[last], key, since, cfg);
    }
  }

  // ---- evidence only moves forward -----------------------------------------------

  ghost predicate SignalsAdvance(a: map<SignalKey, Signal>, b: map<SignalKey, Signal>) {
    forall k :: k in a ==> k in b && a[k].lastSeenAt <= b[k].lastSeenAt
  }

  lemma {:induction false} SignalTimesPast(run: Run, n: nat, cfg: Config)
    requires Timely(run) && n <= |run.events|
    ensures forall k :: k in StateAt(run, n, cfg).db.signals ==> StateAt(run, n, cfg).db.signals[k].lastSeenAt <= Clock(run, n)
  {
    hide Effect;
    if n > 0 {
      SignalTimesPast(run, n - 1, cfg);
      StepSignals(StateAt(run, n - 1, cfg), run.events[n - 1], cfg);
    }
  }

  lemma {:induction false} SignalsOnlyAdvance(run: Run, m: nat, n: nat, cfg: Config)
    requires Timely(run) && m <= n <= |run.events|
    ensures SignalsAdvance(StateAt(run, m, cfg).db.signals, StateAt(run, n, cfg).db.signals)
    decreases n
  {
    hide Effect;
    if m < n {
      SignalsOnlyAdvance(run, m, n - 1, cfg);
      SignalTimesPast(run, n - 1, cfg);
      StepSignals(StateAt(run, n - 1, cfg), run.events[n - 1], cfg);
    }
  }

  lemma {:induction false} LatestSignalAdvances(a: Db, b: Db, student: Student, kind: Kind, day: Day, upTo: nat)
    requires SignalsAdvance(a.signals, b.signals) && upTo <= |a.sessions| <= |b.sessions|
    requires forall k :: 0 <= k < |a.sessions| ==> SameSession(a.sessions[k], b.sessions[k])
    ensures var old', new' := LatestSignal(a.sessions[..upTo], a.signals, student, kind, day),
                              LatestSignal(b.sessions, b.signals, student, kind, day);
            old'.Some? ==> new'.Some? && old'.value.lastSeenAt <= new'.value.lastSeenAt
  {
    if upTo > 0 {
      LatestSignalAdvances(a, b, student, kind, day, upTo - 1);
      assert a.sessions[..upTo][..upTo - 1] == a.sessions[..upTo - 1];
      if a.sessions[upTo - 1].date == day && (upTo - 1, student, kind) in a.signals {
        LatestSignalIsLatest(b.sessions, b.signals, student, kind, day, upTo - 1);
      }
    }
  }

  lemma {:induction false} UnhealthyOnlyAdvances(run: Run, m: nat, n: nat, center: Center, cfg: Config)
    requires Timely(run) && m <= n <= |run.events|
    ensures UnhealthyAtFor(StateAt(run, m, cfg).mem, center) <= UnhealthyAtFor(StateAt(run, n, cfg).mem, center)
    decreases n
  {
    hide Effect;
    if m < n {
      UnhealthyOnlyAdvances(run, m, n - 1, center, cfg);
      ClocksAlwaysAgree(run, n - 1, cfg);
      StepMemory(StateAt(run, n - 1, cfg), run.events[n - 1], cfg);
      assert UnhealthyAtFor(StateAt(run, n - 1, cfg).mem, center) <= Clock(run, n - 1) <= run.events[n - 1].at;
    }
  }

  function ArrivalOf(db: Db, key: Key): Option<int> {
    if key in db.records then db.records[key].arrivedAt else None
  }

  lemma {:induction false} ArrivalsPast(run: Run, n: nat, key: Key, cfg: Config)
    requires Timely(run) && n <= |run.events|
    ensures var a := ArrivalOf(StateAt(run, n, cfg).db, key); a.Some? ==> a.value <= Clock(run, n)
  {
    hide Effect, ActionAt;
    if n > 0 {
      ArrivalsPast(run, n - 1, key, cfg);
      StepRecords(StateAt(run, n - 1, cfg), run.events[n - 1], key, cfg);
    }
  }

  lemma {:induction false} ArrivalsOnlyAdvance(run: Run, m: nat, n: nat, key: Key, cfg: Config)
    requires Timely(run) && m <= n <= |run.events| && ArrivalOf(StateAt(run, m, cfg).db, key).Some?
    ensures var b := ArrivalOf(StateAt(run, n, cfg).db, key);
            b.Some? ==> ArrivalOf(StateAt(run, m, cfg).db, key).value <= b.value
    decreases n
  {
    hide Effect, ActionAt;
    if m < n {
      ArrivalsOnlyAdvance(run, m, n - 1, key, cfg);
      ArrivalsPast(run, m, key, cfg);
      assert Clock(run, m) <= run.events[n - 1].at;
      StepRecords(StateAt(run, n - 1, cfg), run.events[n - 1], key, cfg);
    }
  }

  lemma StudentWindowStartByDay(student: Student, t: int, u: int, cfg: Config)
    requires SchoolDay(t, cfg.zone) == SchoolDay(u, cfg.zone)
    ensures StudentWindowStart(student, t, cfg) == StudentWindowStart(student, u, cfg)
  {
    FloorToMinute(t, cfg.zone);
    FloorToMinute(u, cfg.zone);
  }

  // A run of the watch keeps the records it read until it ends.
  lemma {:induction false} TickUnbroken(run: Run, m: nat, n: nat, cfg: Config)
    requires m <= n <= |run.events| && HasTick(StateAt(run, n, cfg).watch)
    requires TickOf(StateAt(run, n, cfg).watch).readAt < m
    ensures HasTick(StateAt(run, m, cfg).watch)
    ensures TickOf(StateAt(run, m, cfg).watch).readAt == TickOf(StateAt(run, n, cfg).watch).readAt
    ensures TickOf(StateAt(run, m, cfg).watch).now == TickOf(StateAt(run, n, cfg).watch).now
    decreases n
  {
    hide Effect;
    if m < n {
      StepMoves(StateAt(run, n - 1, cfg), run.events[n - 1], cfg);
      TickUnbroken(run, m, n - 1, cfg);
    }
  }

  lemma ReadLaterOrSame(run: Run, m: nat, n: nat, cfg: Config)
    requires m <= n <= |run.events| && HasTick(StateAt(run, m, cfg).watch) && HasTick(StateAt(run, n, cfg).watch)
    ensures TickOf(StateAt(run, m, cfg).watch).readAt <= TickOf(StateAt(run, n, cfg).watch).readAt
  {
    hide Effect;
    WatchAlwaysKnows(run, m, cfg);
    if TickOf(StateAt(run, n, cfg).watch).readAt < m {
      TickUnbroken(run, m, n, cfg);
    }
  }

  lemma SightingsOnlyAdvance(run: Run, m: nat, n: nat, student: Student, kind: Kind, day: Day, cfg: Config)
    requires Timely(run) && m <= n <= |run.events|
    ensures var a, b := StateAt(run, m, cfg).db, StateAt(run, n, cfg).db;
            var old', new' := LatestSignal(a.sessions, a.signals, student, kind, day),
                              LatestSignal(b.sessions, b.signals, student, kind, day);
            old'.Some? ==> new'.Some? && old'.value.lastSeenAt <= new'.value.lastSeenAt
  {
    hide Effect;
    SignalsOnlyAdvance(run, m, n, cfg);
    SessionsOnlyGrow(run, m, n, cfg);
    var a := StateAt(run, m, cfg).db;
    LatestSignalAdvances(a, StateAt(run, n, cfg).db, student, kind, day, |a.sessions|);
    assert a.sessions[..|a.sessions|] == a.sessions;
  }

  lemma StillHereOnlyAdvances(run: Run, m: nat, n: nat, student: Student, day: Day, cfg: Config)
    requires Timely(run) && m <= n <= |run.events|
    ensures var old', new' := StillHereAt(StateAt(run, m, cfg).db.checks, student, day),
                              StillHereAt(StateAt(run, n, cfg).db.checks, student, day);
            old'.Some? ==> new'.Some? && old'.value <= new'.value
  {
    hide Effect;
    var a, b := StateAt(run, m, cfg).db.checks, StateAt(run, n, cfg).db.checks;
    if StillHereAt(a, student, day).Some? {
      StillHereIsLast(a, student, day);
      var k :| 0 <= k < |a| && IsStillHere(a[k], student, day) && a[k].prompt.answeredAt == StillHereAt(a, student, day);
      ChecksOnlyGrow(run, m, n, cfg);
      assert SameCheck(a[k], b[k]);
      PromptsStayDisciplined(run, n, cfg);
      StillHereIsLatest(b, student, day, k, Clock(run, n));
    }
  }

  // Between two decisions about one student on one day the start of the absence never moves back.
  lemma SinceOnlyAdvances(run: Run, m: nat, n: nat, key: Key, cfg: Config)
    requires Timely(run) && m < n < |run.events|
    requires Deciding(StateAt(run, m, cfg), run.events[m].event, key, cfg)
    requires Deciding(StateAt(run, n, cfg), run.events[n].event, key, cfg)
    requires StateAt(run, m, cfg).watch.seen.readAt <= StateAt(run, n, cfg).watch.seen.readAt
    ensures SinceAt(StateAt(run, m, cfg), cfg) <= SinceAt(StateAt(run, n, cfg), cfg)
  {
    hide Effect, LatestSignal, StillHereAt, StateAt, StudentWindowStart, AbsentSince, LatestOf;
    var u, w := StateAt(run, m, cfg).watch, StateAt(run, n, cfg).watch;
    WatchAlwaysKnows(run, m, cfg);
    WatchAlwaysKnows(run, n, cfg);
    StudentsOkMeans(run, m, u, cfg);
    StudentsOkMeans(run, n, w, cfg);
    SightingsOnlyAdvance(run, u.seen.readAt, w.seen.readAt, key.0, Face, key.1, cfg);
    SightingsOnlyAdvance(run, u.seen.readAt, w.seen.readAt, key.0, Ble, key.1, cfg);
    StillHereOnlyAdvances(run, u.seen.readAt, w.seen.readAt, key.0, key.1, cfg);
    ReadLaterOrSame(run, m, n, cfg);
    ArrivalsOnlyAdvance(run, u.tick.readAt, w.tick.readAt, key, cfg);
    StudentWindowStartByDay(key.0, u.tick.now, w.tick.now, cfg);
    UnhealthyOnlyAdvances(run, m, n, u.center, cfg);
    AbsentSinceExact(EvidenceOf(u.seen, u.pending[0], UnhealthyAtFor(StateAt(run, m, cfg).mem, u.center), u.tick.now, cfg));
    AbsentSinceExact(EvidenceOf(w.seen, w.pending[0], UnhealthyAtFor(StateAt(run, n, cfg).mem, w.center), w.tick.now, cfg));
  }

  // ---- bounded response ------------------------------------------------------------

  lemma {:induction false} EveryCheckWasPrompted(run: Run, n: nat, id: nat, cfg: Config)
    requires n <= |run.events| && id < |StateAt(run, n, cfg).db.checks|
    ensures exists m: nat :: m < n && Prompts(StateAt(run, m, cfg), run.events[m].event, cfg)
                             && |StateAt(run, m, cfg).db.checks| == id
  {
    hide Effect, Prompts;
    if n > 0 {
      StepChecks(StateAt(run, n - 1, cfg), run.events[n - 1], cfg);
      if id < |StateAt(run, n - 1, cfg).db.checks| {
        EveryCheckWasPrompted(run, n - 1, id, cfg);
      }
    }
  }

  // A prompt seen at a decision was made at an earlier decision, before its absence became a pickup.
  lemma PromptsPrecedePickup(run: Run, n: nat, key: Key, id: nat, cfg: Config)
    requires Timely(run) && n < |run.events| && Deciding(StateAt(run, n, cfg), run.events[n].event, key, cfg)
    requires var seen := StateAt(run, n, cfg).watch.seen.checks; id < |seen| && IsOf(seen[id], key.0, key.1)
    ensures var p := StateAt(run, n, cfg).watch.seen.checks[id].prompt;
            p.expiresAt < SinceAt(StateAt(run, n, cfg), cfg) + cfg.pickup.absentMs + PROMPT_TTL_MS
  {
    hide Effect, EvidenceOf, AbsentSince;
    var sys := StateAt(run, n, cfg);
    WatchAlwaysKnows(run, n, cfg);
    var read := sys.watch.seen.readAt;
    EveryCheckWasPrompted(run, read, id, cfg);
    var m: nat :| m < read && Prompts(StateAt(run, m, cfg), run.events[m].event, cfg) && |StateAt(run, m, cfg).db.checks| == id;
    PromptIsStored(run, m, read, cfg);
    var old' := StateAt(run, m, cfg);
    assert Deciding(old', run.events[m].event, key, cfg);
    WatchAlwaysKnows(run, m, cfg);
    assert old'.watch.seen.readAt < m;
    PromptTime(run, m, key, SinceAt(old', cfg), cfg);
    SinceOnlyAdvances(run, m, n, key, cfg);
  }

  /** Once a student has been gone for `absentMs` plus the life of one prompt, the next decision marks
      them: no prompt can still be open, since prompts are only made before `since + absentMs`. */
  lemma LongAbsenceIsMarked(run: Run, n: nat, key: Key, cfg: Config)
    requires Timely(run) && n < |run.events| && Deciding(StateAt(run, n, cfg), run.events[n].event, key, cfg)
    requires SinceAt(StateAt(run, n, cfg), cfg) + cfg.pickup.absentMs + PROMPT_TTL_MS <= StateAt(run, n, cfg).watch.tick.now
    ensures ActionAt(StateAt(run, n, cfg), cfg) == Action.MarkPickedUp
    ensures AwaitsPickup(StateAt(run, n, cfg).db, key) ==> AutoMarks(run, n, key, cfg)
    ensures !AwaitsPickup(StateAt(run, n + 1, cfg).db, key)
  {
    hide EvidenceOf, AbsentSince;
    var sys := StateAt(run, n, cfg);
    var seen := sys.watch.seen.checks;
    LastCheckIsLast(seen, key.0, key.1);
    if LastCheck(seen, key.0, key.1).Some? {
      var id :| 0 <= id < |seen| && IsOf(seen[id], key.0, key.1) && seen[id].prompt == LastCheck(seen, key.0, key.1).value;
      PromptsPrecedePickup(run, n, key, id, cfg);
    }
  }

  // Step `n` decides about this student, whose last evidence is not after `s`.
  ghost predicate DecidesGone(run: Run, n: nat, key: Key, s: int, cfg: Config) {
    && n < |run.events|
    && Deciding(StateAt(run, n, cfg), run.events[n].event, key, cfg)
    && SinceAt(StateAt(run, n, cfg), cfg) <= s
  }
}

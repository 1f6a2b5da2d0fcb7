/** The other direction: the watch invents no evidence, every student it looks at is decided about, and so
    a student who stays away is picked up in bounded time. */
module RunsResponse {
  import opened Options
  import opened SchoolTime
  import opened Signals
  import opened PickupPolicy
  import opened Attendance
  import opened Runs
  import opened RunsHardware
  import opened RunsWatch
  import opened RunsPrompts
  import opened RunsPickup
  import opened RunsLimits

  // ---- every piece of evidence happened -----------------------------------------------

  ghost predicate RecordedAt(run: Run, i: nat, key: SignalKey, at: int, cfg: Config)
    requires i < |run.events|
  {
    AcceptedFor(run, i, key, cfg) && run.events[i].at == at
  }

  lemma {:induction false} SignalsWereSighted(run: Run, n: nat, key: SignalKey, cfg: Config)
    requires n <= |run.events| && key in StateAt(run, n, cfg).db.signals
    ensures exists i: nat :: i < n && RecordedAt(run, i, key, StateAt(run, n, cfg).db.signals[key].lastSeenAt, cfg)
  {
    hide Step;
    if n > 0 {
      StepSignals(StateAt(run, n - 1, cfg), run.events[n - 1], cfg);
      if AcceptedFor(run, n - 1, key, cfg) {
        assert RecordedAt(run, n - 1, key, run.events[n - 1].at, cfg);
      } else {
        SignalsWereSighted(run, n - 1, key, cfg);
      }
    } else {
      NoSignalsYet(run, cfg);
    }
  }

  lemma NoSignalsYet(run: Run, cfg: Config)
    ensures StateAt(run, 0, cfg).db.signals == map[]
  {
  }

  lemma {:induction false} LatestSignalIsARow(sessions: seq<Session>, signals: map<SignalKey, Signal>,
                                              student: Student, kind: Kind, day: Day)
    ensures var latest := LatestSignal(sessions, signals, student, kind, day);
            latest.Some? ==> exists id: nat :: id < |sessions| && sessions[id].date == day
                                               && (id, student, kind) in signals && signals[(id, student, kind)] == latest.value
  {
    if sessions != [] {
      var front := sessions[..|sessions| - 1];
      LatestSignalIsARow(front, signals, student, kind, day);
      var best := LatestSignal(front, signals, student, kind, day);
      if best.Some? {
        var id: nat :| id < |front| && front[id].date == day
                       && (id, student, kind) in signals && signals[(id, student, kind)] == best.value;
        assert sessions[id] == front[id];
      }
    }
  }

  // The newest sighting the watch can find is one that happened.
  lemma LatestWasSighted(run: Run, n: nat, student: Student, kind: Kind, day: Day, limit: int, cfg: Config)
    requires n <= |run.events|
    requires forall i: nat :: i < n && SightedOn(run, i, student, day, cfg) ==> run.events[i].at <= limit
    ensures var db := StateAt(run, n, cfg).db;
            var latest := LatestSignal(db.sessions, db.signals, student, kind, day);
            latest.Some? ==> latest.value.lastSeenAt <= limit
  {
    hide StateAt, LatestSignal;
    var db := StateAt(run, n, cfg).db;
    LatestSignalIsARow(db.sessions, db.signals, student, kind, day);
    if LatestSignal(db.sessions, db.signals, student, kind, day).Some? {
      var id: nat :| id < |db.sessions| && db.sessions[id].date == day && (id, student, kind) in db.signals
                     && db.signals[(id, student, kind)] == LatestSignal(db.sessions, db.signals, student, kind, day).value;
      SignalsWereSighted(run, n, (id, student, kind), cfg);
      var i: nat :| i < n && RecordedAt(run, i, (id, student, kind), db.signals[(id, student, kind)].lastSeenAt, cfg);
      SessionsOnlyGrow(run, i, n, cfg);
      assert SightedOn(run, i, student, day, cfg);
    }
  }

  ghost predicate ToldAt(run: Run, i: nat, c: Check, cfg: Config)
    requires i < |run.events|
  {
    SaidStillHere(run, i, c.student, c.date, cfg) && Some(run.events[i].at) == c.prompt.answeredAt
  }

  lemma {:induction false} AnswersWereGiven(run: Run, n: nat, id: nat, cfg: Config)
    requires n <= |run.events| && id < |StateAt(run, n, cfg).db.checks|
    requires StateAt(run, n, cfg).db.checks[id].answer == Some(StillHere)
    ensures exists i: nat :: i < n && ToldAt(run, i, StateAt(run, n, cfg).db.checks[id], cfg)
  {
    hide Step;
    if n > 0 {
      var sys, e := StateAt(run, n - 1, cfg), run.events[n - 1];
      StepChecks(sys, e, cfg);
      if id < |sys.db.checks| {
        assert CheckStep(sys, e, id, sys.db.checks[id], StateAt(run, n, cfg).db.checks[id], cfg);
        if AnswersNow(sys, e, id, cfg) {
          assert ToldAt(run, n - 1, StateAt(run, n, cfg).db.checks[id], cfg);
        } else {
          AnswersWereGiven(run, n - 1, id, cfg);
        }
      }
    } else {
      NoChecksYet(run, cfg);
    }
  }

  lemma NoChecksYet(run: Run, cfg: Config)
    ensures StateAt(run, 0, cfg).db.checks == []
  {
  }

  lemma StillHereWasSaid(run: Run, n: nat, student: Student, day: Day, limit: int, cfg: Config)
    requires n <= |run.events|
    requires forall i: nat :: i < n && SaidStillHere(run, i, student, day, cfg) ==> run.events[i].at <= limit
    ensures var at := StillHereAt(StateAt(run, n, cfg).db.checks, student, day); at.Some? ==> at.value <= limit
  {
    hide StateAt, StillHereAt, SaidStillHere;
    var checks := StateAt(run, n, cfg).db.checks;
    StillHereIsLast(checks, student, day);
    if StillHereAt(checks, student, day).Some? {
      var k :| 0 <= k < |checks| && IsStillHere(checks[k], student, day)
               && checks[k].prompt.answeredAt == StillHereAt(checks, student, day);
      AnswersWereGiven(run, n, k, cfg);
      var i: nat :| i < n && ToldAt(run, i, checks[k], cfg);
    }
  }

  lemma {:induction false} OutagesHappened(run: Run, n: nat, center: Center, limit: int, cfg: Config)
    requires Timely(run) && n <= |run.events| && run.start <= limit
    requires forall i: nat :: i < n && HardwareDown(run, i, center, cfg) ==> DownAt(run, i, cfg) <= limit
    ensures UnhealthyAtFor(StateAt(run, n, cfg).mem, center) <= limit && StateAt(run, n, cfg).mem.healthySince <= limit
  {
    hide Step, HardwareUp, EyesOpen;
    if n > 0 {
      OutagesHappened(run, n - 1, center, limit, cfg);
      var sys, e := StateAt(run, n - 1, cfg), run.events[n - 1];
      StepMemory(sys, e, cfg);
      DownIsFound(run, n - 1, cfg);
      if e.event.ProcessRestarts? || (FindsDown(sys, e.event) && sys.watch.center == center) {
        assert HardwareDown(run, n - 1, center, cfg);
        assert DownAt(run, n - 1, cfg) <= limit;
      }
    } else {
      StartsHealthy(run, cfg);
    }
  }

  /** The absence the watch decides by is exact: it starts at the latest trace there is. It starts at or
      before an instant if and only if nothing the run holds of the student is later. */
  lemma SinceIsExact(run: Run, n: nat, limit: int, cfg: Config)
    requires Timely(run) && n <= |run.events|
    requires StateAt(run, n, cfg).watch.AtStudents? && StateAt(run, n, cfg).watch.pending != []
    ensures var sys := StateAt(run, n, cfg);
            && sys.watch.tick.readAt < sys.watch.seen.readAt < n
            && (SinceAt(sys, cfg) <= limit
                <==> NoTraceAfter(run, n, (sys.watch.pending[0].student, SchoolDay(sys.watch.tick.now, cfg.zone)), limit, cfg))
  {
    hide StateAt, SightedOn, SaidStillHere, HardwareDown, LatestSignal, StillHereAt, LatestOf, AbsentSince, StudentWindowStart;
    var sys := StateAt(run, n, cfg);
    var w := sys.watch;
    var who, day := w.pending[0].student, SchoolDay(w.tick.now, cfg.zone);
    SinceIsSound(run, n, cfg);
    WatchAlwaysKnows(run, n, cfg);
    StudentsOkMeans(run, n, w, cfg);
    if NoTraceAfter(run, n, (who, day), limit, cfg) {
      LatestWasSighted(run, w.seen.readAt, who, Face, day, limit, cfg);
      LatestWasSighted(run, w.seen.readAt, who, Ble, day, limit, cfg);
      StillHereWasSaid(run, w.seen.readAt, who, day, limit, cfg);
      OutagesHappened(run, n, w.center, limit, cfg);
      OpensAtItsStart(who, w.tick.now, cfg);
      AbsentSinceExact(EvidenceOf(w.seen, w.pending[0], UnhealthyAtFor(sys.mem, w.center), w.tick.now, cfg));
    } else if SinceAt(sys, cfg) <= limit {
      TracesOnlyLoosen(run, n, (who, day), SinceAt(sys, cfg), limit, cfg);
      assert false;
    }
  }

  // ---- whoever is looked at is decided about ---------------------------------------------

  // The process stays up, and no failure hits the watch's turn for this very student.
  ghost predicate Undisturbed(run: Run, m: nat, n: nat, student: Student, cfg: Config)
    requires n <= |run.events|
  {
    forall i :: m <= i < n ==> !run.events[i].event.ProcessRestarts? && !StumblesOver(run, i, student, cfg)
  }

  ghost predicate StumblesOver(run: Run, i: nat, student: Student, cfg: Config)
    requires i < |run.events|
  {
    var w := StateAt(run, i, cfg).watch;
    run.events[i].event.WatchStumbles? && w.AtStudents? && w.pending != [] && w.pending[0].student == student
  }

  // From `m`, where the watch finds the hardware of the student's center up and reads its tables, on the
  // student's day, to `n`, where it has left the center.
  ghost predicate Look(run: Run, m: nat, n: nat, key: Key, cfg: Config) {
    && m < n <= |run.events| && Undisturbed(run, m, n, key.0, cfg)
    && run.events[m].event.WatchGoesOn?
    && StateAt(run, m, cfg).watch.AtRead?
    && StateAt(run, m, cfg).watch.center == CenterOf(key.0, cfg)
    && key.1 == SchoolDay(StateAt(run, m, cfg).watch.tick.now, cfg.zone)
    && StateAt(run, n, cfg).watch.AtCenter?
  }

  // The run of the watch read the student's record as waiting.
  ghost predicate IsListed(w: Watch, student: Student, cfg: Config)
    requires w.AtRead?
  {
    exists c :: c in PendingOf(OfCenter(w.tick.candidates, w.center, cfg)) && c.student == student
  }

  ghost predicate StillListed(w: Watch, tick: Tick, student: Student) {
    w.AtStudents? && w.tick == tick && exists c :: c in w.pending && c.student == student
  }

  lemma ListMoves(sys: Sys, e: Stamped, cfg: Config)
    requires WatchOk(sys) && sys.watch.AtStudents? && sys.watch.pending != []
    requires !e.event.ProcessRestarts?
    ensures Step(sys, e, cfg).watch
         == if e.event.WatchGoesOn? || e.event.WatchStumbles? then sys.watch.(pending := sys.watch.pending[1..]) else sys.watch
  {
    hide ActOnPending;
  }

  lemma ReadingLists(sys: Sys, e: Stamped, cfg: Config)
    requires WatchOk(sys) && sys.watch.AtRead? && e.event.WatchGoesOn?
    ensures var w := Step(sys, e, cfg).watch;
            w.AtStudents? && w.tick == sys.watch.tick && w.pending == PendingOf(OfCenter(sys.watch.tick.candidates, sys.watch.center, cfg))
  {
    hide OfCenter, PendingOf, AutoPickedUpOf;
  }

  ghost predicate DecidedAt(run: Run, i: nat, key: Key, now: int, cfg: Config) {
    i < |run.events| && Deciding(StateAt(run, i, cfg), run.events[i].event, key, cfg) && DecisionTime(run, i, cfg) == now
  }

  lemma {:induction false} ListedOrDecided(run: Run, m: nat, n: nat, tick: Tick, key: Key, cfg: Config)
    requires m <= n <= |run.events| && Undisturbed(run, m, n, key.0, cfg)
    requires StillListed(StateAt(run, m, cfg).watch, tick, key.0) && key.1 == SchoolDay(tick.now, cfg.zone)
    ensures StillListed(StateAt(run, n, cfg).watch, tick, key.0)
            || exists i: nat :: m <= i < n && DecidedAt(run, i, key, tick.now, cfg)
    decreases n
  {
    hide Step, StateAt;
    if m < n {
      ListedOrDecided(run, m, n - 1, tick, key, cfg);
      var sys, e := StateAt(run, n - 1, cfg), run.events[n - 1];
      if StillListed(sys.watch, tick, key.0) {
        NextState(run, n - 1, cfg);
        ListMoves(sys, e, cfg);
        if e.event.WatchGoesOn? && sys.watch.pending[0].student == key.0 {
          assert DecidedAt(run, n - 1, key, tick.now, cfg);
        } else {
          assert !StumblesOver(run, n - 1, key.0, cfg);
          var c :| c in sys.watch.pending && c.student == key.0;
          assert sys.watch.pending == [sys.watch.pending[0]] + sys.watch.pending[1..];
          assert c in StateAt(run, n, cfg).watch.pending;
        }
      }
    }
  }

  /** Nobody is forgotten: a look that runs its course decides about every student who was waiting. */
  lemma EveryoneLookedAtIsDecided(run: Run, m: nat, n: nat, key: Key, cfg: Config)
    requires Look(run, m, n, key, cfg) && IsListed(StateAt(run, m, cfg).watch, key.0, cfg)
    ensures exists i: nat :: m < i < n && DecidedAt(run, i, key, StateAt(run, m, cfg).watch.tick.now, cfg)
  {
    hide Step, StateAt, OfCenter, PendingOf, DecidedAt;
    var tick := StateAt(run, m, cfg).watch.tick;
    NextState(run, m, cfg);
    ReadingLists(StateAt(run, m, cfg), run.events[m], cfg);
    ListedOrDecided(run, m + 1, n, tick, key, cfg);
    assert !StillListed(StateAt(run, n, cfg).watch, tick, key.0);
  }

  // ---- every center has its turn ----------------------------------------------------------

  ghost predicate IsTurnOf(w: Watch, center: Center) {
    HasTick(w) && TickOf(w).todo != [] && TickOf(w).todo[0] == center
  }

  ghost predicate StillDue(w: Watch, center: Center) {
    HasTick(w) && center in TickOf(w).todo
  }

  /** A failure changes no row and costs no more than what was in hand: one student's decision, or the rest of one
      center; every other center stays due. */
  lemma FailuresStayLocal(sys: Sys, e: Stamped, cfg: Config)
    requires WatchOk(sys) && e.event.WatchStumbles?
    ensures var w, sys' := sys.watch, Step(sys, e, cfg);
            && sys'.db == sys.db && sys'.mem == sys.mem
            && (HasTick(w) && TickOf(w).todo != [] ==>
                  if w.AtStudents? && w.pending != [] then sys'.watch == w.(pending := w.pending[1..])
                  else if w.AtStudents? && w.undo != [] then sys'.watch == w.(undo := w.undo[1..])
                  else sys'.watch == AtCenter(TickOf(w).(todo := TickOf(w).todo[1..])))
  {
  }

  lemma DueUntilItsTurn(sys: Sys, e: Stamped, center: Center, cfg: Config)
    requires WatchOk(sys) && StillDue(sys.watch, center) && !IsTurnOf(sys.watch, center) && !e.event.ProcessRestarts?
    ensures StillDue(Step(sys, e, cfg).watch, center)
  {
    hide OfCenter, PendingOf, AutoPickedUpOf, ActOnPending, ActOnUndo, EnsureAutoSession, Close, HardwareUp;
    var todo := TickOf(sys.watch).todo;
    assert todo == [todo[0]] + todo[1..];
  }

  /** Whatever fails at other centers, a run that ends without a restart has given every center its turn. */
  lemma {:induction false} EveryCenterHasItsTurn(run: Run, m: nat, n: nat, center: Center, cfg: Config)
    requires m <= n <= |run.events| && StillDue(StateAt(run, m, cfg).watch, center) && !StillDue(StateAt(run, n, cfg).watch, center)
    requires forall i :: m <= i < n ==> !run.events[i].event.ProcessRestarts?
    ensures exists i: nat :: m <= i < n && IsTurnOf(StateAt(run, i, cfg).watch, center)
    decreases n - m
  {
    hide StateAt, Step, StillDue, IsTurnOf;
    if !IsTurnOf(StateAt(run, m, cfg).watch, center) {
      assert m < n;
      NextState(run, m, cfg);
      DueUntilItsTurn(StateAt(run, m, cfg), run.events[m], center, cfg);
      EveryCenterHasItsTurn(run, m + 1, n, center, cfg);
    }
  }

  // ---- whoever waits is looked at ---------------------------------------------------------

  // The candidates of a run are all there were when it read the records.
  ghost predicate AllRead(run: Run, n: nat, t: Tick, cfg: Config)
    requires n <= |run.events|
  {
    t.readAt <= n && forall s :: s in cfg.roster && IsCandidate(StateAt(run, t.readAt, cfg).db, s, t.now, cfg) ==>
                       exists c :: c in t.candidates && c.student == s
  }

  lemma ReadAll(db: Db, order: seq<Student>, centers: seq<Center>, now: int, active: map<Center, nat>, cfg: Config)
    requires LegalOrder(db, order, centers, now, active, cfg)
    ensures forall s :: s in cfg.roster && IsCandidate(db, s, now, cfg) ==>
              exists c :: c in ReadCandidates(db, order, now, cfg) && c.student == s
  {
    var cs := ReadCandidates(db, order, now, cfg);
    forall s | s in cfg.roster && IsCandidate(db, s, now, cfg) ensures exists c :: c in cs && c.student == s {
      var i :| 0 <= i < |order| && order[i] == s;
      assert cs[i] in cs && cs[i].student == s;
    }
  }

  lemma {:induction false} CandidatesAreAll(run: Run, n: nat, cfg: Config)
    requires n <= |run.events| && HasTick(StateAt(run, n, cfg).watch)
    ensures AllRead(run, n, TickOf(StateAt(run, n, cfg).watch), cfg)
  {
    hide Step, IsCandidate, ReadCandidates, LegalOrder;
    if n > 0 {
      var sys, e := StateAt(run, n - 1, cfg), run.events[n - 1];
      StepMoves(sys, e, cfg);
      if HasTick(sys.watch) {
        CandidatesAreAll(run, n - 1, cfg);
      } else {
        ReadAll(sys.db, e.event.order, e.event.centers, sys.watch.start, sys.watch.active, cfg);
      }
    } else {
      NothingKnownYet(run, cfg);
    }
  }

  /** A watched student whose record was waiting when the run read it is on its list. */
  lemma WhoeverWaitsIsListed(run: Run, m: nat, key: Key, cfg: Config)
    requires m <= |run.events| && StateAt(run, m, cfg).watch.AtRead?
    requires var w := StateAt(run, m, cfg).watch;
             && w.center == CenterOf(key.0, cfg) && key.1 == SchoolDay(w.tick.now, cfg.zone) && IsWatched(key, w.tick.now, cfg)
             && w.tick.readAt <= m && AwaitsPickup(StateAt(run, w.tick.readAt, cfg).db, key)
    ensures IsListed(StateAt(run, m, cfg).watch, key.0, cfg)
  {
    hide Step, StateAt, OfCenter, PendingOf, TypesOpen, IsWatched;
    var w := StateAt(run, m, cfg).watch;
    CandidatesAreAll(run, m, cfg);
    WatchAlwaysKnows(run, m, cfg);
    WatchedExactly(key.0, w.tick.now, cfg);
    assert IsCandidate(StateAt(run, w.tick.readAt, cfg).db, key.0, w.tick.now, cfg);
    var c :| c in w.tick.candidates && c.student == key.0;
    assert c == ReadCandidate(StateAt(run, w.tick.readAt, cfg).db, c.student, w.tick.now, cfg);
    OfCenterIsPart(w.tick.candidates, w.center, cfg);
    PendingIsPart(OfCenter(w.tick.candidates, w.center, cfg));
  }

  // ---- bounded response ---------------------------------------------------------------------

  // After `s` the run brings nothing new of this student: no sighting, no "still here", no arrival, no
  // outage at their center, and their window had opened.
  ghost predicate Silent(run: Run, key: Key, s: int, cfg: Config) {
    && run.start <= s
    && (forall i: nat :: i < |run.events| && SightedOn(run, i, key.0, key.1, cfg) ==> run.events[i].at <= s)
    && (forall i: nat :: i < |run.events| && SaidStillHere(run, i, key.0, key.1, cfg) ==> run.events[i].at <= s)
    && (forall i: nat :: i < |run.events| && HardwareDown(run, i, CenterOf(key.0, cfg), cfg) ==> DownAt(run, i, cfg) <= s)
    && (forall n: nat :: n <= |run.events| && ArrivalOf(StateAt(run, n, cfg).db, key).Some? ==>
          ArrivalOf(StateAt(run, n, cfg).db, key).value <= s)
    && WindowOpensAt(key, cfg) <= s
  }

  lemma SilentDecision(run: Run, i: nat, key: Key, s: int, now: int, cfg: Config)
    requires Timely(run) && Silent(run, key, s, cfg) && DecidedAt(run, i, key, now, cfg)
    ensures DecidesGone(run, i, key, s, cfg)
  {
    hide StateAt, SightedOn, SaidStillHere, HardwareDown, AbsentSince, EvidenceOf;
    var w := StateAt(run, i, cfg).watch;
    WatchAlwaysKnows(run, i, cfg);
    StudentsOkMeans(run, i, w, cfg);
    SinceIsExact(run, i, s, cfg);
    assert ArrivalOf(StateAt(run, w.tick.readAt, cfg).db, key).Some?;
    assert NoTraceAfter(run, i, key, s, cfg);
  }

  ghost function LookTime(run: Run, m: nat, cfg: Config): int {
    if m < |run.events| && StateAt(run, m, cfg).watch.AtRead? then StateAt(run, m, cfg).watch.tick.now else 0
  }

  // The watch's run around the look read the student as not waiting, or by the end of the look they no
  // longer were.
  ghost predicate OffTheListIn(run: Run, look: (nat, nat), key: Key, cfg: Config) {
    && look.0 < look.1 <= |run.events| && StateAt(run, look.0, cfg).watch.AtRead?
    && exists i: nat :: StateAt(run, look.0, cfg).watch.tick.readAt <= i <= look.1 && !AwaitsPickup(StateAt(run, i, cfg).db, key)
  }

  lemma LookDecides(run: Run, m: nat, n: nat, key: Key, s: int, cfg: Config)
    requires Timely(run) && Silent(run, key, s, cfg) && Look(run, m, n, key, cfg) && IsWatched(key, LookTime(run, m, cfg), cfg)
    requires s + cfg.pickup.absentMs + PROMPT_TTL_MS <= LookTime(run, m, cfg)
    ensures OffTheListIn(run, (m, n), key, cfg)
  {
    hide StateAt, Silent, Step, SinceAt, IsListed, AwaitsPickup, IsWatched;
    var tick := StateAt(run, m, cfg).watch.tick;
    WatchAlwaysKnows(run, m, cfg);
    if AwaitsPickup(StateAt(run, tick.readAt, cfg).db, key) {
      WhoeverWaitsIsListed(run, m, key, cfg);
      EveryoneLookedAtIsDecided(run, m, n, key, cfg);
      var i: nat :| m < i < n && DecidedAt(run, i, key, tick.now, cfg);
      SilentDecision(run, i, key, s, tick.now, cfg);
      LongAbsenceIsMarked(run, i, key, cfg);
      assert !AwaitsPickup(StateAt(run, i + 1, cfg).db, key);
    }
  }

  /** Bounded response: if nothing new is known of a tracked student after `s`, their window stays open and
      undisturbed looks at their center come at most `gap` apart until `s + absentMs + PROMPT_TTL_MS` has
      passed, then a look at most `gap` after that finds, or leaves, them no longer waiting to be picked up. */
  lemma {:induction false} GoneStudentsArePickedUp(run: Run, looks: seq<(nat, nat)>, key: Key, s: int, gap: int, cfg: Config)
    requires Timely(run) && Silent(run, key, s, cfg) && looks != [] && gap >= 0
    requires forall k :: 0 <= k < |looks| ==> Look(run, looks[k].0, looks[k].1, key, cfg)
    requires forall k :: 0 <= k < |looks| ==> IsWatched(key, LookTime(run, looks[k].0, cfg), cfg)
    requires forall k :: 0 < k < |looks| ==> LookTime(run, looks[k].0, cfg) <= LookTime(run, looks[k - 1].0, cfg) + gap
    requires var due := s + cfg.pickup.absentMs + PROMPT_TTL_MS;
             LookTime(run, looks[0].0, cfg) <= due + gap && due <= LookTime(run, looks[|looks| - 1].0, cfg)
    ensures exists k :: && 0 <= k < |looks|
                        && LookTime(run, looks[k].0, cfg) <= s + cfg.pickup.absentMs + PROMPT_TTL_MS + gap
                        && OffTheListIn(run, looks[k], key, cfg)
  {
    hide StateAt, Silent, Look, IsWatched, OffTheListIn, LookTime;
    var due := s + cfg.pickup.absentMs + PROMPT_TTL_MS;
    assert Look(run, looks[0].0, looks[0].1, key, cfg);
    if due <= LookTime(run, looks[0].0, cfg) {
      LookDecides(run, looks[0].0, looks[0].1, key, s, cfg);
    } else {
      var rest := looks[1..];
      assert forall k :: 0 <= k < |rest| ==> rest[k] == looks[k + 1];
      GoneStudentsArePickedUp(run, rest, key, s, gap, cfg);
      var k :| && 0 <= k < |rest| && LookTime(run, rest[k].0, cfg) <= due + gap && OffTheListIn(run, rest[k], key, cfg);
      assert looks[k + 1] == rest[k];
    }
  }
}

/** Sessions over whole runs: one active per center, and Stop means stop. */
module RunsSessions {
  import opened Options
  import opened SchoolTime
  import opened Signals
  import opened PickupPolicy
  import opened Attendance
  import opened Runs
  import opened RunsWatch
  import opened RunsRecords

  ghost predicate OneActivePerCenter(sessions: seq<Session>) {
    forall i, j :: 0 <= i < j < |sessions| && sessions[i].active && sessions[j].active ==>
      sessions[i].center != sessions[j].center
  }

  // The rows after a step: some of the old ones closed, perhaps one active row more.
  ghost predicate OnlyCloses(a: seq<Session>, b: seq<Session>) {
    && |a| <= |b| <= |a| + 1
    && (forall k :: 0 <= k < |a| ==> SameSession(a[k], b[k]) && (b[k].active ==> a[k].active))
  }

  lemma NewRowIsAlone(a: seq<Session>, closed: seq<Session>, date: Day, center: Center, auto: bool, now: int)
    requires OneActivePerCenter(a) && |closed| == |a| && OnlyCloses(a, closed)
    ensures OneActivePerCenter(InsertActive(closed, date, center, auto, now))
    ensures OnlyCloses(a, InsertActive(closed, date, center, auto, now))
  {
  }

  lemma EnsureKeepsOneActive(a: seq<Session>, today: Day, session: Option<nat>, windowStart: int, center: Center, now: int)
    requires OneActivePerCenter(a) && (session.Some? ==> session.value < |a|)
    ensures OneActivePerCenter(EnsureAutoSession(a, today, session, windowStart, center, now).0)
  {
    var closed := if session.Some? then Close(a, session.value, now) else a;
    NewRowIsAlone(a, closed, today, center, true, now);
    NewRowIsAlone(a, a, today, center, true, now);
  }

  lemma StartKeepsOneActive(sys: Sys, e: Stamped, cfg: Config)
    requires WatchOk(sys) && OneActivePerCenter(sys.db.sessions) && e.event.PressStart?
    ensures OneActivePerCenter(Step(sys, e, cfg).db.sessions)
  {
    var a, center := sys.db.sessions, e.event.center;
    var existing := FindActive(a, center);
    var closed := if existing.Some? then Close(a, existing.value, e.at) else a;
    NewRowIsAlone(a, closed, SchoolDay(e.at, cfg.zone), center, false, e.at);
  }

  lemma WatchKeepsOneActive(sys: Sys, e: Stamped, cfg: Config)
    requires WatchOk(sys) && OneActivePerCenter(sys.db.sessions) && e.event.WatchGoesOn? && sys.watch.AtCenter?
    ensures OneActivePerCenter(Step(sys, e, cfg).db.sessions)
  {
    hide EnsureAutoSession;
    var tick := sys.watch.tick;
    if tick.todo != [] {
      EnsureKeepsOneActive(sys.db.sessions, SchoolDay(tick.now, cfg.zone), SeenSession(tick, tick.todo[0]),
                           WindowStart(tick.now, cfg), tick.todo[0], e.at);
    }
  }

  lemma StepKeepsOneActive(sys: Sys, e: Stamped, cfg: Config)
    requires WatchOk(sys) && OneActivePerCenter(sys.db.sessions)
    ensures OneActivePerCenter(Step(sys, e, cfg).db.sessions)
  {
    if !TouchesSessions(sys, e.event) {
      hide Step, OneActivePerCenter;
      OthersKeepSessions(sys, e, cfg);
    } else if e.event.PressStart? {
      hide Step;
      StartKeepsOneActive(sys, e, cfg);
    } else if e.event.WatchGoesOn? {
      hide Step;
      WatchKeepsOneActive(sys, e, cfg);
    }
  }

  /** At every reachable state a center has at most one active session. */
  lemma {:induction false} OneActiveAlways(run: Run, n: nat, cfg: Config)
    requires n <= |run.events|
    ensures OneActivePerCenter(StateAt(run, n, cfg).db.sessions)
  {
    hide Step;
    if n > 0 {
      OneActiveAlways(run, n - 1, cfg);
      StepKeepsOneActive(StateAt(run, n - 1, cfg), run.events[n - 1], cfg);
    }
  }

  // ---- what Start and Stop leave -----------------------------------------------------

  ghost predicate IsTodays(sessions: seq<Session>, id: nat, center: Center, today: Day) {
    id < |sessions| && sessions[id].active && sessions[id].center == center && sessions[id].date == today
  }

  lemma TheActiveOne(sessions: seq<Session>, id: nat, center: Center)
    requires OneActivePerCenter(sessions) && id < |sessions| && sessions[id].active && sessions[id].center == center
    ensures FindActive(sessions, center) == Some(id)
  {
  }

  /** Start leaves the center with today's session and every other center's as they were; if today's was
      running it changes nothing, so a second Start is harmless. */
  lemma StartLeavesTodaysSession(db: Db, center: Center, now: int, cfg: Config)
    requires OneActivePerCenter(db.sessions)
    ensures var after, today := StartSession(db, center, now, cfg), SchoolDay(now, cfg.zone);
            && OneActivePerCenter(after.sessions)
            && (exists id :: IsTodays(after.sessions, id, center, today))
            && (forall k :: 0 <= k < |db.sessions| && db.sessions[k].center != center ==>
                  k < |after.sessions| && after.sessions[k] == db.sessions[k])
            && ((exists id :: IsTodays(db.sessions, id, center, today)) ==> after == db)
            && after == db.(sessions := after.sessions)
  {
    var today := SchoolDay(now, cfg.zone);
    var existing := FindActive(db.sessions, center);
    var closed := if existing.Some? then Close(db.sessions, existing.value, now) else db.sessions;
    NewRowIsAlone(db.sessions, closed, today, center, false, now);
    if id :| IsTodays(db.sessions, id, center, today) {
      TheActiveOne(db.sessions, id, center);
    } else if existing.Some? && db.sessions[existing.value].date == today {
      assert IsTodays(db.sessions, existing.value, center, today);
    } else {
      assert FindActive(closed, center) == None by { NoneLeft(db.sessions, closed, existing, center, now); }
      assert IsTodays(StartSession(db, center, now, cfg).sessions, |closed|, center, today);
    }
  }

  lemma NoneLeft(sessions: seq<Session>, closed: seq<Session>, existing: Option<nat>, center: Center, now: int)
    requires OneActivePerCenter(sessions) && existing == FindActive(sessions, center)
    requires closed == if existing.Some? then Close(sessions, existing.value, now) else sessions
    ensures FindActive(closed, center) == None
  {
  }

  /** Stop leaves no session of the center running, ends those that ran now, and touches nothing else. */
  lemma StopStopsOnlyItsCenter(db: Db, center: Center, now: int)
    ensures var after := StopSession(db, center, now);
            && FindActive(after.sessions, center) == None
            && |after.sessions| == |db.sessions|
            && (forall k :: 0 <= k < |db.sessions| ==>
                  && SameSession(db.sessions[k], after.sessions[k])
                  && (db.sessions[k].center != center || !db.sessions[k].active ==> after.sessions[k] == db.sessions[k])
                  && (db.sessions[k].center == center && db.sessions[k].active ==> after.sessions[k].endedAt == Some(now)))
            && after == db.(sessions := after.sessions)
  {
  }

  // ---- Stop means stop -------------------------------------------------------------

  // Step `n` is the watch starting a session of its own at this center.
  ghost predicate AutoStarts(run: Run, n: nat, center: Center, cfg: Config)
    requires n < |run.events|
  {
    var sys := StateAt(run, n, cfg);
    && run.events[n].event.WatchGoesOn? && sys.watch.AtCenter?
    && sys.watch.tick.todo != [] && sys.watch.tick.todo[0] == center
    && |StateAt(run, n + 1, cfg).db.sessions| == |sys.db.sessions| + 1
  }

  ghost function TickTime(run: Run, n: nat, cfg: Config): int
    requires n <= |run.events|
  {
    var w := StateAt(run, n, cfg).watch;
    if w.Idle? then 0 else TickNow(w)
  }

  lemma AutoStartedRow(run: Run, n: nat, center: Center, cfg: Config)
    requires n < |run.events| && AutoStarts(run, n, center, cfg)
    ensures var sessions, t := StateAt(run, n, cfg).db.sessions, TickTime(run, n, cfg);
            var today, w := SchoolDay(t, cfg.zone), WindowStart(t, cfg);
            && StateAt(run, n + 1, cfg).db.sessions[|sessions|] == Session(today, center, true, true, run.events[n].at, None)
            && (forall k :: 0 <= k < |sessions| && sessions[k].date == today ==>
                  !StoppedHere(sessions[k], today, center, w) && !(sessions[k].active && sessions[k].center == center))
  {
    hide StateAt, ReadStep, EyesStep, StudentsStep, WindowStart, OfCenter, PendingOf;
    NextState(run, n, cfg);
    var sys, e := StateAt(run, n, cfg), run.events[n];
    var tick := sys.watch.tick;
    var today, w, session := SchoolDay(tick.now, cfg.zone), WindowStart(tick.now, cfg), SeenSession(tick, center);
    assert StateAt(run, n + 1, cfg).db.sessions == EnsureAutoSession(sys.db.sessions, today, session, w, center, e.at).0;
    var closed := if session.Some? then Close(sys.db.sessions, session.value, e.at) else sys.db.sessions;
    assert StateAt(run, n + 1, cfg).db.sessions == InsertActive(closed, today, center, true, e.at);
    forall k | 0 <= k < |closed| && sys.db.sessions[k].date == today
      ensures closed[k] == sys.db.sessions[k] && !StoppedHere(closed[k], today, center, w)
    {
    }
  }

  lemma WindowStartIsPast(now: int, cfg: Config)
    ensures WindowStart(now, cfg) <= now
  {
    var nowMinutes := SchoolMinutesOfDay(now, cfg.zone);
    var types := TypesOpen(now, cfg);
    if types != [] {
      assert types == [Morning] || types == [Afternoon] || types == [Morning, Afternoon];
      assert StartMin(types[0], cfg.pickup) <= nowMinutes;
      assert EarliestStartMin(types, cfg.pickup) <= StartMin(types[0], cfg.pickup);
    }
  }

  // A session the watch started can only end at or after the time of the run that started it.
  lemma {:induction false} AutoSessionEndsLater(run: Run, m: nat, n: nat, center: Center, cfg: Config)
    requires Timely(run) && m < n <= |run.events| && AutoStarts(run, m, center, cfg)
    ensures var id, t := |StateAt(run, m, cfg).db.sessions|, TickTime(run, m, cfg);
            var sessions := StateAt(run, n, cfg).db.sessions;
            && id < |sessions|
            && sessions[id].date == SchoolDay(t, cfg.zone) && sessions[id].center == center && sessions[id].autoStarted
            && (sessions[id].active || (sessions[id].endedAt.Some? && sessions[id].endedAt.value >= t))
    decreases n
  {
    hide Effect;
    var id, t := |StateAt(run, m, cfg).db.sessions|, TickTime(run, m, cfg);
    if m + 1 < n {
      AutoSessionEndsLater(run, m, n - 1, center, cfg);
      var sys, e := StateAt(run, n - 1, cfg), run.events[n - 1];
      StepSessions(sys, e, cfg);
      TicksAdvance(run, m, n - 1, t, cfg);
      assert SessionStep(sys, e, sys.db.sessions[id], StateAt(run, n, cfg).db.sessions[id]);
    } else {
      AutoStartedRow(run, m, center, cfg);
    }
  }

  /** Stop means stop: for one center, one day and one window start the watch starts a session at most
      once, whoever ended the first one. */
  lemma AutoStartsOncePerWindow(run: Run, m: nat, n: nat, center: Center, cfg: Config)
    requires Timely(run) && m < n < |run.events|
    requires AutoStarts(run, m, center, cfg) && AutoStarts(run, n, center, cfg)
    requires SchoolDay(TickTime(run, m, cfg), cfg.zone) == SchoolDay(TickTime(run, n, cfg), cfg.zone)
    ensures WindowStart(TickTime(run, m, cfg), cfg) != WindowStart(TickTime(run, n, cfg), cfg)
  {
    hide StateAt, WindowStart;
    AutoSessionEndsLater(run, m, n, center, cfg);
    AutoStartedRow(run, n, center, cfg);
    WindowStartIsPast(TickTime(run, m, cfg), cfg);
  }

  // ---- hence twice a day ---------------------------------------------------------------

  lemma {:induction false} TicksAreInWindows(run: Run, n: nat, cfg: Config)
    requires n <= |run.events|
    ensures !StateAt(run, n, cfg).watch.Idle? ==> TypesOpen(TickNow(StateAt(run, n, cfg).watch), cfg) != []
  {
    if n > 0 {
      TicksAreInWindows(run, n - 1, cfg);
      TickKeepsItsWindow(StateAt(run, n - 1, cfg), run.events[n - 1], cfg);
    }
  }

  lemma TickKeepsItsWindow(sys: Sys, e: Stamped, cfg: Config)
    requires WatchOk(sys) && (!sys.watch.Idle? ==> TypesOpen(TickNow(sys.watch), cfg) != [])
    ensures var w := Step(sys, e, cfg).watch; !w.Idle? ==> TypesOpen(TickNow(w), cfg) != []
  {
    hide TypesOpen;
  }

  // A window start is one of the day's two configured instants.
  function DayInstant(day: Day, s: SessionType, cfg: Config): int {
    day * DAY_MS - cfg.zone * MINUTE_MS + StartMin(s, cfg.pickup) * MINUTE_MS
  }

  lemma TwoWindowStarts(now: int, cfg: Config)
    requires TypesOpen(now, cfg) != []
    ensures WindowStart(now, cfg) in {DayInstant(SchoolDay(now, cfg.zone), Morning, cfg),
                                      DayInstant(SchoolDay(now, cfg.zone), Afternoon, cfg)}
  {
    var types := TypesOpen(now, cfg);
    FloorToMinute(now, cfg.zone);
    assert types == [Morning] || types == [Afternoon] || types == [Morning, Afternoon];
    if |types| == 2 {
      assert types[1..] == [Afternoon];
      assert EarliestStartMin([Afternoon], cfg.pickup) == StartMin(Afternoon, cfg.pickup);
    }
  }

  /** At most two sessions of the watch per center and day: a third would repeat a window start. */
  lemma AutoStartsAtMostTwiceADay(run: Run, k: nat, m: nat, n: nat, center: Center, cfg: Config)
    requires Timely(run) && k < m < n < |run.events|
    requires AutoStarts(run, k, center, cfg) && AutoStarts(run, m, center, cfg) && AutoStarts(run, n, center, cfg)
    ensures !(SchoolDay(TickTime(run, k, cfg), cfg.zone) == SchoolDay(TickTime(run, m, cfg), cfg.zone)
              == SchoolDay(TickTime(run, n, cfg), cfg.zone))
  {
    hide Effect, WindowStart, TypesOpen;
    var t0, t1, t2 := TickTime(run, k, cfg), TickTime(run, m, cfg), TickTime(run, n, cfg);
    if SchoolDay(t0, cfg.zone) == SchoolDay(t1, cfg.zone) == SchoolDay(t2, cfg.zone) {
      AutoStartsOncePerWindow(run, k, m, center, cfg);
      AutoStartsOncePerWindow(run, k, n, center, cfg);
      AutoStartsOncePerWindow(run, m, n, center, cfg);
      TicksAreInWindows(run, k, cfg);
      TicksAreInWindows(run, m, cfg);
      TicksAreInWindows(run, n, cfg);
      TwoWindowStarts(t0, cfg);
      TwoWindowStarts(t1, cfg);
      TwoWindowStarts(t2, cfg);
      assert false;
    }
  }
}

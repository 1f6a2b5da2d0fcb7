/** The watch's run from its beginning to the sessions it keeps: when a run begins, what it sees running, and
    what it starts and ends at each center. */
module RunsCenters {
  import opened Options
  import opened SchoolTime
  import opened Signals
  import opened PickupPolicy
  import opened Attendance
  import opened Requests
  import opened Runs
  import opened RunsWatch
  import opened RunsSessions

  // ---- when a run begins ---------------------------------------------------------------

  // The instant of `now`'s day at which a window with this starting minute opens.
  function Opening(startMin: int, now: int, cfg: Config): int {
    Today(now, cfg) * 86_400_000 + (startMin - cfg.zone) * 60_000
  }

  predicate IsOpenNow(startMin: int, now: int, cfg: Config) {
    Opening(startMin, now, cfg) <= now && now - now % 60_000 < Opening(startMin, now, cfg) + cfg.pickup.windowMs
  }

  // When the earliest of the windows that are open opened.
  function WindowBegan(now: int, cfg: Config): int {
    var (m, a) := (cfg.pickup.morningStartMin, cfg.pickup.afternoonStartMin);
    if IsOpenNow(m, now, cfg) && (IsOpenNow(a, now, cfg) ==> m <= a) then Opening(m, now, cfg) else Opening(a, now, cfg)
  }

  lemma InWindowMeans(s: SessionType, now: int, cfg: Config)
    ensures InWindow(s, SchoolMinutesOfDay(now, cfg.zone), cfg.pickup)
       <==> IsOpenNow(if s == Morning then cfg.pickup.morningStartMin else cfg.pickup.afternoonStartMin, now, cfg)
  {
    FloorToMinute(now, cfg.zone);
    assert now / MINUTE_MS * MINUTE_MS == now - now % 60_000;
  }

  lemma WindowStartMeans(now: int, cfg: Config)
    ensures TypesOpen(now, cfg) != []
       <==> IsOpenNow(cfg.pickup.morningStartMin, now, cfg) || IsOpenNow(cfg.pickup.afternoonStartMin, now, cfg)
    ensures TypesOpen(now, cfg) != [] ==> WindowStart(now, cfg) == WindowBegan(now, cfg)
  {
    InWindowMeans(Morning, now, cfg);
    InWindowMeans(Afternoon, now, cfg);
    FloorToMinute(now, cfg.zone);
    var types := TypesOpen(now, cfg);
    assert types == [] || types == [Morning] || types == [Afternoon] || types == [Morning, Afternoon];
    if |types| == 2 {
      assert types[1..] == [Afternoon];
      assert EarliestStartMin([Afternoon], cfg.pickup) == StartMin(Afternoon, cfg.pickup);
    }
  }

  // For every center with a session running, a session that runs there.
  ghost predicate SeesRunning(active: map<Center, nat>, sessions: seq<Session>) {
    && (forall c :: c in active ==> RunsAt(sessions, active[c], c))
    && (forall k: int, c :: RunsAt(sessions, k, c) ==> c in active)
  }

  /** A run begins if and only if none is in progress and a pickup window is open; it then knows the session
      that runs at each center. */
  lemma BeginsExactly(sys: Sys, now: int, cfg: Config)
    requires WatchOk(sys)
    ensures var sys' := Step(sys, Stamped(now, TickBegins), cfg);
            && sys'.db == sys.db && sys'.mem == sys.mem
            && if sys.watch.Idle? && (IsOpenNow(cfg.pickup.morningStartMin, now, cfg) || IsOpenNow(cfg.pickup.afternoonStartMin, now, cfg))
               then sys'.watch.Began? && sys'.watch.start == now && SeesRunning(sys'.watch.active, sys.db.sessions)
               else sys'.watch == sys.watch
  {
    hide TypesOpen, IsOpenNow, WindowStart;
    WindowStartMeans(now, cfg);
  }

  // ---- the sessions it saw -----------------------------------------------------------------

  // The sessions the run saw are of their centers.
  ghost predicate SeenFit(w: Watch, sessions: seq<Session>) {
    (!w.Idle? ==> forall c :: c in SeenBy(w) ==> SeenBy(w)[c] < |sessions| && sessions[SeenBy(w)[c]].center == c)
  }

  function SeenBy(w: Watch): map<Center, nat>
    requires !w.Idle?
  {
    if w.Began? then w.active else TickOf(w).sessions
  }

  lemma {:induction false} SeenAlwaysFit(run: Run, n: nat, cfg: Config)
    requires n <= |run.events|
    ensures SeenFit(StateAt(run, n, cfg).watch, StateAt(run, n, cfg).db.sessions)
  {
    hide StateAt, Step, SessionsByCenter, TypesOpen;
    if n > 0 {
      var sys, e := StateAt(run, n - 1, cfg), run.events[n - 1];
      SeenAlwaysFit(run, n - 1, cfg);
      NextState(run, n - 1, cfg);
      StepSessions(sys, e, cfg);
      SeenStays(sys, e, cfg);
    } else {
      NothingKnownYet(run, cfg);
    }
  }

  lemma SeenStays(sys: Sys, e: Stamped, cfg: Config)
    requires WatchOk(sys)
    ensures var w' := Step(sys, e, cfg).watch;
            || w'.Idle?
            || (!sys.watch.Idle? && SeenBy(w') == SeenBy(sys.watch))
            || (w'.Began? && w'.active == SessionsByCenter(sys.db.sessions))
  {
    hide SessionsByCenter;
  }

  // ---- its share of a center -------------------------------------------------------------------

  ghost predicate IsAtCenter(run: Run, n: nat, cfg: Config)
    requires n < |run.events|
  {
    run.events[n].event.WatchGoesOn? && StateAt(run, n, cfg).watch.AtCenter? && StateAt(run, n, cfg).watch.tick.todo != []
  }

  // Somebody of this center was not picked up when the run read the records.
  ghost predicate SomebodyWaits(t: Tick, center: Center, cfg: Config) {
    exists c :: c in t.candidates && CenterOf(c.student, cfg) == center && c.pickedUpAt == None
  }

  ghost predicate NobodyThere(t: Tick, center: Center, cfg: Config) {
    forall c :: c in t.candidates ==> CenterOf(c.student, cfg) != center
  }

  // The watch had started a session for this window here, and it was ended.
  ghost predicate WasStopped(sessions: seq<Session>, center: Center, now: int, cfg: Config) {
    exists k :: && 0 <= k < |sessions|
                && sessions[k].center == center && sessions[k].date == Today(now, cfg) && sessions[k].autoStarted
                && !sessions[k].active && sessions[k].endedAt.Some? && WindowBegan(now, cfg) <= sessions[k].endedAt.value
  }

  ghost predicate SeenToday(t: Tick, center: Center, sessions: seq<Session>, cfg: Config) {
    center in t.sessions && t.sessions[center] < |sessions| && sessions[t.sessions[center]].date == Today(t.now, cfg)
  }

  ghost predicate IsSeen(t: Tick, center: Center, id: nat) {
    center in t.sessions && t.sessions[center] == id
  }

  ghost predicate LeftoverEnded(a: seq<Session>, b: seq<Session>, t: Tick, center: Center, now: int) {
    |a| <= |b| && forall k: nat :: k < |a| ==>
      if IsSeen(t, center, k) && a[k].active then Ended(a[k], b[k], now) else b[k] == a[k]
  }

  // Students wait and the run saw no session of today: a leftover ends, and one is started or found running,
  // unless the watch's own session of this window was stopped.
  ghost predicate Ensured(a: seq<Session>, b: seq<Session>, t: Tick, center: Center, now: int, session: Option<nat>, cfg: Config) {
    && LeftoverEnded(a, b, t, center, now)
    && if WasStopped(b[..|a|], center, t.now, cfg) then |b| == |a| && session == None
       else if exists id: int :: RunsAt(b[..|a|], id, center) then |b| == |a| && session.Some? && RunsAt(b, session.value, center)
       else |b| == |a| + 1 && b[|a|] == Session(Today(t.now, cfg), center, true, true, now, None) && session == Some(|a|)
  }

  lemma EnsuresExactly(a: seq<Session>, t: Tick, center: Center, now: int, cfg: Config)
    requires SessionIdsOk(t.sessions, a) && !SeenToday(t, center, a, cfg) && TypesOpen(t.now, cfg) != []
    ensures var (b, session) := EnsureAutoSession(a, SchoolDay(t.now, cfg.zone), SeenSession(t, center), WindowStart(t.now, cfg), center, now);
            |a| <= |b| && Ensured(a, b, t, center, now, session, cfg)
  {
    hide WindowStart, WindowBegan, TypesOpen, FindActive, InsertActive, StoppedSince, WasStopped, LeftoverEnded, RunsAt, Close;
    var closed := if center in t.sessions then Close(a, t.sessions[center], now) else a;
    WindowStartMeans(t.now, cfg);
    LeftoverEnds(a, t, center, now);
    StoppedMeans(closed, center, t.now, cfg);
    InsertsExactly(closed, Today(t.now, cfg), center, now);
    var b := EnsureAutoSession(a, SchoolDay(t.now, cfg.zone), SeenSession(t, center), WindowStart(t.now, cfg), center, now).0;
    assert b[..|a|] == closed;
    LeftoverStays(a, closed, b, t, center, now);
  }

  lemma LeftoverEnds(a: seq<Session>, t: Tick, center: Center, now: int)
    requires SessionIdsOk(t.sessions, a)
    ensures var closed := if center in t.sessions then Close(a, t.sessions[center], now) else a;
            |closed| == |a| && LeftoverEnded(a, closed, t, center, now)
  {
  }

  lemma LeftoverStays(a: seq<Session>, closed: seq<Session>, b: seq<Session>, t: Tick, center: Center, now: int)
    requires |closed| == |a| && LeftoverEnded(a, closed, t, center, now) && closed <= b
    ensures LeftoverEnded(a, b, t, center, now)
  {
  }

  lemma InsertsExactly(sessions: seq<Session>, today: Day, center: Center, now: int)
    ensures var b := InsertActive(sessions, today, center, true, now);
            if exists id: int :: RunsAt(sessions, id, center)
            then b == sessions && FindActive(b, center).Some? && RunsAt(b, FindActive(b, center).value, center)
            else b == sessions + [Session(today, center, true, true, now, None)] && FindActive(b, center) == Some(|sessions|)
  {
    if FindActive(sessions, center).Some? {
      assert RunsAt(sessions, FindActive(sessions, center).value, center);
    }
  }

  lemma StoppedMeans(sessions: seq<Session>, center: Center, now: int, cfg: Config)
    ensures WasStopped(sessions, center, now, cfg)
       <==> StoppedSince(sessions, SchoolDay(now, cfg.zone), center, WindowBegan(now, cfg))
  {
    hide WindowBegan;
    var today, began := SchoolDay(now, cfg.zone), WindowBegan(now, cfg);
    forall k | 0 <= k < |sessions| ensures StoppedHere(sessions[k], today, center, began)
      <==> sessions[k].center == center && sessions[k].date == today && sessions[k].autoStarted && !sessions[k].active
           && sessions[k].endedAt.Some? && began <= sessions[k].endedAt.value {}
  }

  lemma WaitingAre(t: Tick, center: Center, cfg: Config)
    requires DistinctStudents(t.candidates)
    ensures var mine := OfCenter(t.candidates, center, cfg);
            && (PendingOf(mine) != [] <==> SomebodyWaits(t, center, cfg))
            && (mine == [] <==> NobodyThere(t, center, cfg))
  {
    hide OfCenter, PendingOf;
    var mine := OfCenter(t.candidates, center, cfg);
    OfCenterIsPart(t.candidates, center, cfg);
    PendingIsPart(mine);
    if PendingOf(mine) != [] { assert PendingOf(mine)[0] in PendingOf(mine); }
    if mine != [] { assert mine[0] in mine; }
  }

  // What happened to the sessions `a` of a center, and the session the watch goes on with.
  ghost predicate CenterSettled(a: seq<Session>, b: seq<Session>, t: Tick, center: Center, now: int, session: Option<nat>, cfg: Config) {
    |a| <= |b| &&
    if SomebodyWaits(t, center, cfg) && !SeenToday(t, center, a, cfg) then
      Ensured(a, b, t, center, now, session, cfg)
    else
      && |b| == |a| && (session.Some? <==> center in t.sessions) && (session.Some? ==> session.value == t.sessions[center])
      && EndsExactly(a, b, (k: nat) => !SomebodyWaits(t, center, cfg) && IsSeen(t, center, k) && k < |a| && a[k].active && a[k].autoStarted, t.now)
  }

  lemma TodaysIsKept(a: seq<Session>, t: Tick, center: Center, now: int, cfg: Config)
    requires SessionIdsOk(t.sessions, a) && SeenToday(t, center, a, cfg)
    ensures EnsureAutoSession(a, SchoolDay(t.now, cfg.zone), SeenSession(t, center), WindowStart(t.now, cfg), center, now)
         == (a, Some(t.sessions[center]))
  {
    hide WindowStart;
  }

  lemma CenterStepSettles(sys: Sys, order: seq<Student>, centers: seq<Center>, now: int, cfg: Config)
    requires WatchOk(sys) && sys.watch.AtCenter? && sys.watch.tick.todo != [] && TypesOpen(sys.watch.tick.now, cfg) != []
    requires DistinctStudents(sys.watch.tick.candidates)
    ensures var t, sys' := sys.watch.tick, WatchStep(sys, order, centers, now, cfg);
            var center := t.todo[0];
            && sys'.mem == sys.mem && OnlySessions(sys.db, sys'.db)
            && if NobodyThere(t, center, cfg)
               then sys'.watch == AtCenter(t.(todo := t.todo[1..]))
                    && CenterSettled(sys.db.sessions, sys'.db.sessions, t, center, now, SeenSession(t, center), cfg)
               else sys'.watch.AtEyes? && sys'.watch.tick == t && sys'.watch.center == center
                    && CenterSettled(sys.db.sessions, sys'.db.sessions, t, center, now, sys'.watch.session, cfg)
  {
    hide OfCenter, PendingOf, EnsureAutoSession, WindowStart, TypesOpen, Ensured, SomebodyWaits, NobodyThere;
    var t, a := sys.watch.tick, sys.db.sessions;
    var center := t.todo[0];
    WaitingAre(t, center, cfg);
    assert NobodyThere(t, center, cfg) ==> !SomebodyWaits(t, center, cfg) by { NobodyWaits(t, center, cfg); }
    if SomebodyWaits(t, center, cfg) {
      if SeenToday(t, center, a, cfg) {
        TodaysIsKept(a, t, center, now, cfg);
      } else {
        EnsuresExactly(a, t, center, now, cfg);
      }
    }
  }

  lemma NobodyWaits(t: Tick, center: Center, cfg: Config)
    ensures NobodyThere(t, center, cfg) ==> !SomebodyWaits(t, center, cfg)
  {
  }

  /** Whatever came between, when the watch comes to a center: while somebody waits, the session of today it saw
      is used, or a leftover ends and today's is started (unless a session runs there meanwhile, or the watch's
      own of this window was stopped); when nobody waits any more, a session the watch started ends at the
      time of the run. No other row of any table changes. */
  lemma CentersAreSettled(run: Run, n: nat, cfg: Config)
    requires n < |run.events| && IsAtCenter(run, n, cfg)
    ensures var t, sys, sys' := StateAt(run, n, cfg).watch.tick, StateAt(run, n, cfg), StateAt(run, n + 1, cfg);
            var center := t.todo[0];
            && sys'.mem == sys.mem && OnlySessions(sys.db, sys'.db)
            && (center in t.sessions ==> t.sessions[center] < |sys.db.sessions| && sys.db.sessions[t.sessions[center]].center == center)
            && if NobodyThere(t, center, cfg)
               then sys'.watch == AtCenter(t.(todo := t.todo[1..]))
                    && CenterSettled(sys.db.sessions, sys'.db.sessions, t, center, run.events[n].at, SeenSession(t, center), cfg)
               else sys'.watch.AtEyes? && sys'.watch.tick == t && sys'.watch.center == center
                    && CenterSettled(sys.db.sessions, sys'.db.sessions, t, center, run.events[n].at, sys'.watch.session, cfg)
  {
    hide StateAt, CenterSettled, NobodyThere, WatchStep, TypesOpen;
    NextState(run, n, cfg);
    SeenAlwaysFit(run, n, cfg);
    TicksAreInWindows(run, n, cfg);
    WatchAlwaysKnows(run, n, cfg);
    var sys, e := StateAt(run, n, cfg), run.events[n];
    assert SeenBy(sys.watch) == sys.watch.tick.sessions;
    CenterStepSettles(sys, e.event.order, e.event.centers, e.at, cfg);
  }

  /** So a center where somebody waits gets its session, as long as nobody stopped the watch's own. */
  lemma WaitingCentersGetASession(run: Run, n: nat, cfg: Config)
    requires n < |run.events| && IsAtCenter(run, n, cfg)
    requires var t := StateAt(run, n, cfg).watch.tick; SomebodyWaits(t, t.todo[0], cfg)
    ensures var w', after := StateAt(run, n + 1, cfg).watch, StateAt(run, n + 1, cfg).db.sessions;
            var t := StateAt(run, n, cfg).watch.tick;
            && w'.AtEyes? && w'.center == t.todo[0]
            && if w'.session.Some?
               then w'.session.value < |after| && after[w'.session.value].center == w'.center
                    && (after[w'.session.value].active || IsSeen(t, w'.center, w'.session.value))
               else WasStopped(after, w'.center, t.now, cfg)
  {
    hide StateAt, WasStopped, SomebodyWaits;
    CentersAreSettled(run, n, cfg);
    var t, a, b := StateAt(run, n, cfg).watch.tick, StateAt(run, n, cfg).db.sessions, StateAt(run, n + 1, cfg).db.sessions;
    NobodyWaits(t, t.todo[0], cfg);
    assert |b| == |a| ==> b[..|a|] == b;
  }
}

/** One run of the pickup watch with nothing in between: the small steps of a run, taken to its end,
    are one pass over the centers, each of them one pass over its students. */
module WatchRun {
  import opened Options
  import opened SchoolTime
  import opened Signals
  import opened PickupPolicy
  import opened Attendance

  function ActOnAll(db: Db, seen: Seen, pending: seq<Candidate>, unhealthyAt: int, now: int, cfg: Config): Db
    decreases |pending|
  {
    if pending == [] then db
    else ActOnAll(ActOnPending(db, seen, pending[0], unhealthyAt, now, cfg), seen, pending[1..], unhealthyAt, now, cfg)
  }

  function UndoAll(db: Db, seen: Seen, undo: seq<Candidate>, now: int, cfg: Config): Db
    decreases |undo|
  {
    if undo == [] then db
    else UndoAll(ActOnUndo(db, seen, undo[0], now, cfg), seen, undo[1..], now, cfg)
  }

  // What the run does to a center's sessions, and the session it then works with.
  function SessionFor(sessions: seq<Session>, mine: seq<Candidate>, session: Option<nat>, center: Center, now: int, cfg: Config)
    : (r: (seq<Session>, Option<nat>))
    requires session.Some? ==> session.value < |sessions|
  {
    if PendingOf(mine) != [] then
      EnsureAutoSession(sessions, SchoolDay(now, cfg.zone), session, WindowStart(now, cfg), center, now)
    else if session.Some? && sessions[session.value].autoStarted then (Close(sessions, session.value, now), session)
    else (sessions, session)
  }

  function SeenNow(db: Db, readAt: nat): Seen {
    Seen(db.sessions, db.signals, db.checks, readAt)
  }

  function StudentsOutcome(db: Db, seen: Seen, mine: seq<Candidate>, unhealthyAt: int, now: int, cfg: Config): Db {
    UndoAll(ActOnAll(db, seen, PendingOf(mine), unhealthyAt, now, cfg), seen, AutoPickedUpOf(mine), now, cfg)
  }

  // One center's share of a run.
  function CenterOutcome(sys: Sys, mine: seq<Candidate>, session: Option<nat>, center: Center, now: int, cfg: Config): Sys
    requires session.Some? ==> session.value < |sys.db.sessions|
  {
    var (sessions, session') := SessionFor(sys.db.sessions, mine, session, center, now, cfg);
    var ready := sys.(db := sys.db.(sessions := sessions));
    if mine == [] then ready else LookOutcome(ready, mine, session', center, now, cfg)
  }

  // ... from the moment its session is settled.
  function LookOutcome(sys: Sys, mine: seq<Candidate>, session: Option<nat>, center: Center, now: int, cfg: Config): Sys {
    if !HardwareUp(sys, center, session, now) then
      sys.(mem := sys.mem.(unhealthyAt := sys.mem.unhealthyAt[center := now]))
    else
      sys.(db := StudentsOutcome(sys.db, SeenNow(sys.db, sys.steps), mine, UnhealthyAtFor(sys.mem, center), now, cfg))
  }

  lemma {:induction false} StudentsKeepSessions(db: Db, seen: Seen, pending: seq<Candidate>, undo: seq<Candidate>,
                                                unhealthyAt: int, now: int, cfg: Config)
    ensures ActOnAll(db, seen, pending, unhealthyAt, now, cfg).sessions == db.sessions
    ensures UndoAll(db, seen, undo, now, cfg).sessions == db.sessions
    decreases |pending| + |undo|
  {
    hide ActionFor, SeenAgain;
    if pending != [] {
      StudentsKeepSessions(ActOnPending(db, seen, pending[0], unhealthyAt, now, cfg), seen, pending[1..], [], unhealthyAt, now, cfg);
    }
    if undo != [] {
      StudentsKeepSessions(ActOnUndo(db, seen, undo[0], now, cfg), seen, [], undo[1..], unhealthyAt, now, cfg);
    }
  }

  lemma CenterOnlyAddsSessions(sys: Sys, mine: seq<Candidate>, session: Option<nat>, center: Center, now: int, cfg: Config)
    requires session.Some? ==> session.value < |sys.db.sessions|
    ensures |sys.db.sessions| <= |CenterOutcome(sys, mine, session, center, now, cfg).db.sessions|
  {
    hide ActionFor, SeenAgain, HardwareUp;
    var ready := sys.db.(sessions := SessionFor(sys.db.sessions, mine, session, center, now, cfg).0);
    var acted := ActOnAll(ready, SeenNow(ready, sys.steps), PendingOf(mine), UnhealthyAtFor(sys.mem, center), now, cfg);
    StudentsKeepSessions(ready, SeenNow(ready, sys.steps), PendingOf(mine), [], UnhealthyAtFor(sys.mem, center), now, cfg);
    StudentsKeepSessions(acted, SeenNow(ready, sys.steps), [], AutoPickedUpOf(mine), 0, now, cfg);
  }

  // Every center still to do, one after the other.
  function CentersOutcome(sys: Sys, tick: Tick, cfg: Config): Sys
    requires SessionIdsOk(tick.sessions, sys.db.sessions)
    decreases |tick.todo|
  {
    if tick.todo == [] then sys
    else
      var center := tick.todo[0];
      var mine, session := OfCenter(tick.candidates, center, cfg), SeenSession(tick, center);
      CenterOnlyAddsSessions(sys, mine, session, center, tick.now, cfg);
      CentersOutcome(CenterOutcome(sys, mine, session, center, tick.now, cfg), tick.(todo := tick.todo[1..]), cfg)
  }

  // A whole run at `now`, from the moment it is due.
  function RunOutcome(sys: Sys, order: seq<Student>, centers: seq<Center>, now: int, cfg: Config): Sys
    requires TypesOpen(now, cfg) != [] ==> LegalOrder(sys.db, order, centers, now, SessionsByCenter(sys.db.sessions), cfg)
  {
    if TypesOpen(now, cfg) == [] then sys
    else
      CentersOutcome(sys, Tick(now, SessionsByCenter(sys.db.sessions), ReadCandidates(sys.db, order, now, cfg), centers, sys.steps), cfg)
  }

  // ---- the small steps, taken to the end ---------------------------------------------

  function Todo(w: Watch): nat {
    match w
    case Idle => 0
    case Began(_, _) => 0
    case AtCenter(t) => |t.todo|
    case AtEyes(t, _, _) => |t.todo|
    case AtRead(t, _) => |t.todo|
    case AtStudents(t, _, _, _, _) => |t.todo|
  }

  function Phase(w: Watch): nat {
    match w
    case AtStudents(_, _, _, pending, undo) => |pending| + |undo|
    case _ => 0
  }

  function Stage(w: Watch): nat {
    match w
    case Idle => 0
    case Began(_, _) => 5
    case AtCenter(_) => 4
    case AtEyes(_, _, _) => 3
    case AtRead(_, _) => 2
    case AtStudents(_, _, _, _, _) => 1
  }

  // The watch steps on, at wall clock `now`, until its run is over.
  function StepsToEnd(sys: Sys, now: int, cfg: Config): Sys
    requires WatchOk(sys) && !sys.watch.Began?
    decreases Todo(sys.watch), Stage(sys.watch), Phase(sys.watch)
  {
    if sys.watch.Idle? then sys
    else
      WatchStepOk(sys, now, cfg);
      StepsToEnd(WatchStep(sys, [], [], now, cfg), now, cfg)
  }

  lemma WatchStepOk(sys: Sys, now: int, cfg: Config)
    requires WatchOk(sys) && !sys.watch.Began? && !sys.watch.Idle?
    ensures var sys' := WatchStep(sys, [], [], now, cfg);
            && WatchOk(sys') && !sys'.watch.Began?
            && (sys'.watch.Idle? || Todo(sys'.watch) < Todo(sys.watch)
                || (Todo(sys'.watch) == Todo(sys.watch) && Stage(sys'.watch) < Stage(sys.watch))
                || (Todo(sys'.watch) == Todo(sys.watch) && Stage(sys'.watch) == Stage(sys.watch)
                    && Phase(sys'.watch) < Phase(sys.watch)))
            && (sys'.watch.Idle? ==> Todo(sys.watch) == 0 && Stage(sys.watch) == 4)
  {
    hide ActionFor, SeenAgain, HardwareUp, StoppedSince;
  }

  lemma {:induction false} StudentsToEnd(sys: Sys, now: int, cfg: Config)
    requires WatchOk(sys) && sys.watch.AtStudents?
    ensures var w := sys.watch;
            var acted := ActOnAll(sys.db, w.seen, w.pending, UnhealthyAtFor(sys.mem, w.center), w.tick.now, cfg);
            var after := sys.(db := UndoAll(acted, w.seen, w.undo, w.tick.now, cfg), watch := NextCenter(w.tick));
            WatchOk(after) && StepsToEnd(sys, now, cfg) == StepsToEnd(after, now, cfg)
    decreases Phase(sys.watch)
  {
    hide ActOnPending, ActOnUndo;
    WatchStepOk(sys, now, cfg);
    var next := WatchStep(sys, [], [], now, cfg);
    assert StepsToEnd(sys, now, cfg) == StepsToEnd(next, now, cfg);
    if next.watch.AtStudents? {
      StudentsToEnd(next, now, cfg);
    }
  }

  /** The small steps of an uninterrupted run do exactly what one pass over its centers does. */
  lemma {:induction false} StepsToEndExact(sys: Sys, tick: Tick, cfg: Config)
    requires WatchOk(sys) && sys.watch == AtCenter(tick)
    ensures StepsToEnd(sys, tick.now, cfg) == CentersOutcome(sys, tick, cfg).(watch := Idle)
    decreases |tick.todo|
  {
    hide ActionFor, SeenAgain, HardwareUp, EnsureAutoSession, Close;
    if tick.todo != [] {
      var center := tick.todo[0];
      var mine, session := OfCenter(tick.candidates, center, cfg), SeenSession(tick, center);
      var rest := tick.(todo := tick.todo[1..]);
      CenterOnlyAddsSessions(sys, mine, session, center, tick.now, cfg);
      var after := CenterOutcome(sys, mine, session, center, tick.now, cfg).(watch := AtCenter(rest));
      CenterToEnd(sys, tick, cfg);
      StepsToEndExact(after, rest, cfg);
      WatchDoesNotMatter(after, CenterOutcome(sys, mine, session, center, tick.now, cfg), rest, cfg);
    } else {
      WatchStepOk(sys, tick.now, cfg);
    }
  }

  lemma LookToEnd(sys: Sys, now: int, cfg: Config)
    requires WatchOk(sys) && sys.watch.AtEyes?
    ensures var w := sys.watch;
            var mine := OfCenter(w.tick.candidates, w.center, cfg);
            var after := LookOutcome(sys, mine, w.session, w.center, w.tick.now, cfg).(watch := NextCenter(w.tick));
            WatchOk(after) && StepsToEnd(sys, now, cfg) == StepsToEnd(after, now, cfg)
  {
    hide ActionFor, SeenAgain, HardwareUp, OfCenter, PendingOf, AutoPickedUpOf, ActOnAll, UndoAll;
    WatchStepOk(sys, now, cfg);
    var s2 := WatchStep(sys, [], [], now, cfg);
    if s2.watch.AtRead? {
      WatchStepOk(s2, now, cfg);
      StudentsToEnd(WatchStep(s2, [], [], now, cfg), now, cfg);
    }
  }

  lemma CenterToEnd(sys: Sys, tick: Tick, cfg: Config)
    requires WatchOk(sys) && sys.watch == AtCenter(tick) && tick.todo != []
    ensures var center := tick.todo[0];
            var mine, session := OfCenter(tick.candidates, center, cfg), SeenSession(tick, center);
            var after := CenterOutcome(sys, mine, session, center, tick.now, cfg)
                         .(watch := AtCenter(tick.(todo := tick.todo[1..])));
            WatchOk(after) && StepsToEnd(sys, tick.now, cfg) == StepsToEnd(after, tick.now, cfg)
  {
    hide ActionFor, SeenAgain, EnsureAutoSession, Close, OfCenter, PendingOf, ActOnAll, UndoAll, StudentsOutcome;
    var now, center := tick.now, tick.todo[0];
    CenterOnlyAddsSessions(sys, OfCenter(tick.candidates, center, cfg), SeenSession(tick, center), center, now, cfg);
    WatchStepOk(sys, now, cfg);
    var s1 := WatchStep(sys, [], [], now, cfg);
    if s1.watch.AtEyes? {
      LookToEnd(s1, now, cfg);
    }
  }

  lemma {:induction false} WatchDoesNotMatter(a: Sys, b: Sys, tick: Tick, cfg: Config)
    requires a.db == b.db && a.mem == b.mem && a.steps == b.steps && SessionIdsOk(tick.sessions, a.db.sessions)
    ensures CentersOutcome(a, tick, cfg).(watch := Idle) == CentersOutcome(b, tick, cfg).(watch := Idle)
    decreases |tick.todo|
  {
    hide ActionFor, SeenAgain, EnsureAutoSession, Close, ActOnAll, UndoAll;
    if tick.todo != [] {
      var center := tick.todo[0];
      var mine, session := OfCenter(tick.candidates, center, cfg), SeenSession(tick, center);
      CenterOnlyAddsSessions(a, mine, session, center, tick.now, cfg);
      WatchDoesNotMatter(CenterOutcome(a, mine, session, center, tick.now, cfg),
                         CenterOutcome(b, mine, session, center, tick.now, cfg), tick.(todo := tick.todo[1..]), cfg);
    }
  }
}

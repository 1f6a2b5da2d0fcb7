/** The tables and the process memory as one mutable object, and the requests and the watch as the
    methods that change it step by step. Each is proved to leave exactly the state its function says. */
module AttendanceStore {
  import opened Options
  import opened SchoolTime
  import opened Signals
  import opened PickupPolicy
  import opened Attendance
  import opened WatchRun

  class Store {
    const cfg: Config

    var records: map<Key, Record>
    var verifications: map<Key, Verification>
    var sessions: seq<Session>
    var signals: map<SignalKey, Signal>
    var checks: seq<Check>
    var gatewaySeenAt: Option<int>

    var healthySince: int
    var unhealthyAt: map<Center, int>
    var lastFrameAt: map<Center, int>

    constructor (cfg: Config, now: int)
      ensures this.cfg == cfg && Rows() == Initial(now).db && Mem() == Initial(now).mem
    {
      this.cfg := cfg;
      records, verifications, sessions, signals, checks, gatewaySeenAt := map[], map[], [], map[], [], None;
      healthySince, unhealthyAt, lastFrameAt := now, map[], map[];
    }

    function Rows(): Db
      reads this
    {
      Db(records, verifications, sessions, signals, checks, gatewaySeenAt)
    }

    function Mem(): Memory
      reads this
    {
      Memory(healthySince, unhealthyAt, lastFrameAt)
    }

    // ---- teachers' requests ------------------------------------------------------

    method UpdateAttendance(key: Key, status: Status, now: int) returns (saved: bool)
      modifies this
      ensures Rows() == Attendance.UpdateAttendance(old(Rows()), key, status, now, cfg) && Mem() == old(Mem())
      ensures saved <==> key.1 <= SchoolDay(now, cfg.zone)
    {
      if key.1 > SchoolDay(now, cfg.zone) {
        return false;
      }
      records := records[key := Record(status, ArrivedAtFor(status, key.1, now, cfg), None, false)];
      verifications := verifications - {key};
      return true;
    }

    method RecordAttendance(entries: seq<Entry>, now: int) returns (saved: bool)
      modifies this
      ensures Rows() == Attendance.RecordAttendance(old(Rows()), entries, now, cfg) && Mem() == old(Mem())
      ensures saved <==> forall k :: 0 <= k < |entries| ==> entries[k].key.1 <= SchoolDay(now, cfg.zone)
    {
      for i := 0 to |entries|
        invariant forall k :: 0 <= k < i ==> entries[k].key.1 <= SchoolDay(now, cfg.zone)
        invariant Rows() == old(Rows()) && Mem() == old(Mem())
      {
        if entries[i].key.1 > SchoolDay(now, cfg.zone) {
          return false;
        }
      }
      UpsertRecords(ToWrite(records, entries), now);
      return true;
    }

    // One transaction: every upsert, then the automatic evidence of what was written is dropped.
    method UpsertRecords(entries: seq<Entry>, now: int)
      modifies this`records, this`verifications
      ensures Rows() == UpsertAll(old(Rows()), entries, now, cfg) && Mem() == old(Mem())
    {
      var written: set<Key> := {};
      for i := 0 to |entries|
        invariant verifications == old(verifications)
        invariant Rows().(verifications := verifications - written) == UpsertAll(old(Rows()), entries[..i], now, cfg)
      {
        var e := entries[i];
        records := records[e.key := Record(e.status, ArrivedAtFor(e.status, e.key.1, now, cfg), None, false)];
        assert entries[..i + 1][..i] == entries[..i];
        assert verifications - (written + {e.key}) == verifications - written - {e.key};
        written := written + {e.key};
      }
      assert entries[..|entries|] == entries;
      verifications := verifications - written;
    }

    method MarkPickedUp(student: Student, now: int) returns (marked: bool)
      modifies this
      ensures Rows() == MarkPickedUpByTeacher(old(Rows()), student, now, cfg) && Mem() == old(Mem())
      ensures marked <==> old(AwaitsPickup(Rows(), (student, SchoolDay(now, cfg.zone))))
    {
      var key := (student, SchoolDay(now, cfg.zone));
      if key !in records || records[key].status != Present || records[key].arrivedAt == None {
        return false;
      }
      if records[key].pickedUpAt.Some? {
        return false;
      }
      records := records[key := records[key].(pickedUpAt := Some(now), pickedUpAuto := false)];
      return true;
    }

    method AutoMarkPickedUp(student: Student, today: Day, now: int, auto: bool) returns (marked: bool)
      modifies this
      ensures Rows() == MarkPickedUpGuarded(old(Rows()), (student, today), now, auto) && Mem() == old(Mem())
      ensures marked <==> old(AwaitsPickup(Rows(), (student, today)))
    {
      var key := (student, today);
      marked := AwaitsPickup(Rows(), key);
      if marked {
        records := records[key := records[key].(pickedUpAt := Some(now), pickedUpAuto := auto)];
      }
    }

    method AnswerPickupCheck(id: nat, stillHere: bool, now: int) returns (answered: bool)
      modifies this
      ensures Rows() == Attendance.AnswerPickupCheck(old(Rows()), id, stillHere, now, cfg) && Mem() == old(Mem())
      ensures answered <==> old(Claimable(Rows(), id, now, cfg))
    {
      var today := SchoolDay(now, cfg.zone);
      if id >= |checks| || checks[id].date != today {
        return false;
      }
      var c := checks[id];
      if c.prompt.answeredAt.Some? || c.prompt.expiresAt <= now {
        return false;
      }
      checks := checks[id := c.(prompt := c.prompt.(answeredAt := Some(now)),
                                answer := Some(if stillHere then StillHere else PickedUp))];
      if !stillHere {
        var _ := AutoMarkPickedUp(c.student, today, now, false);
      }
      return true;
    }

    // ---- sightings ---------------------------------------------------------------

    method MarkVerified(session: nat, key: Key, face: Signal, ble: Signal, now: int) returns (outcome: Outcome)
      modifies this
      ensures (Rows(), outcome) == Attendance.MarkVerified(old(Rows()), session, key, face, ble, now) && Mem() == old(Mem())
    {
      if key !in records {
        records := records[key := Record(Present, Some(now), None, false)];
      } else if records[key].status == Absent {
        records := records[key := records[key].(status := Present, arrivedAt := Some(now), pickedUpAt := None, pickedUpAuto := false)];
      } else {
        return AlreadyRecorded;
      }
      verifications := verifications[key := Verification(session, face.score, ble.score, now)];
      return NewlyVerified;
    }

    method RecordSignal(session: nat, student: Student, kind: Kind, value: real, now: int) returns (outcome: Outcome)
      requires session < |sessions|
      modifies this
      ensures (Rows(), outcome) == Attendance.RecordSignal(old(Rows()), session, student, kind, value, now, cfg)
      ensures Mem() == old(Mem())
    {
      var prev := SignalAt(signals, (session, student, kind));
      var next := MergeSignal(prev, value, now, cfg.verify);
      signals := signals[(session, student, kind) := next];
      var other := SignalAt(signals, (session, student, Other(kind)));
      var face := if kind == Face then Some(next) else other;
      var ble := if kind == Ble then Some(next) else other;
      if !Verified(face, ble, now, cfg.verify) {
        return Pending;
      }
      outcome := MarkVerified(session, (student, sessions[session].date), face.value, ble.value, now);
    }

    method TouchCamera(center: Center, now: int)
      modifies this`lastFrameAt
      ensures Mem() == old(Mem()).(lastFrameAt := old(lastFrameAt)[center := now])
    {
      lastFrameAt := lastFrameAt[center := now];
    }

    // ---- sessions ----------------------------------------------------------------

    method StartSession(center: Center, now: int)
      modifies this
      ensures Rows() == Attendance.StartSession(old(Rows()), center, now, cfg) && Mem() == old(Mem())
    {
      var today := SchoolDay(now, cfg.zone);
      var existing := FindActive(sessions, center);
      if existing.Some? {
        if sessions[existing.value].date == today {
          return;
        }
        sessions := Close(sessions, existing.value, now);
      }
      sessions := InsertActive(sessions, today, center, false, now);
    }

    method StopSession(center: Center, now: int)
      modifies this`sessions
      ensures Rows() == Attendance.StopSession(old(Rows()), center, now)
    {
      sessions := seq(|sessions|, i requires 0 <= i < |sessions| reads this =>
        if sessions[i].active && sessions[i].center == center
        then sessions[i].(active := false, endedAt := Some(now)) else sessions[i]);
    }

    method CloseStaleSessions(now: int)
      modifies this`sessions
      ensures Rows() == Attendance.CloseStaleSessions(old(Rows()), now)
    {
      sessions := seq(|sessions|, i requires 0 <= i < |sessions| reads this =>
        if sessions[i].active && sessions[i].startedAt < now - STALE_AFTER_MS
        then sessions[i].(active := false, endedAt := Some(now)) else sessions[i]);
    }

    method EnsureAutoSession(today: Day, seen: Option<nat>, windowStart: int, center: Center, now: int)
      returns (session: Option<nat>)
      requires seen.Some? ==> seen.value < |sessions|
      modifies this`sessions
      ensures (sessions, session) == Attendance.EnsureAutoSession(old(sessions), today, seen, windowStart, center, now)
    {
      session := seen;
      if session.Some? && sessions[session.value].date != today {
        sessions := Close(sessions, session.value, now);
        session := None;
      }
      if session.Some? {
        return session;
      }
      if StoppedSince(sessions, today, center, windowStart) {
        return None;
      }
      sessions := InsertActive(sessions, today, center, true, now);
      session := FindActive(sessions, center);
    }

    // ---- the watch ---------------------------------------------------------------

    // Newest prompt and last "still here" of every student, from one pass over the day's prompts.
    method PromptsByStudent(rows: seq<Check>, day: Day)
      returns (lastCheck: map<Student, Prompt>, stillHere: map<Student, int>)
      ensures forall s :: LastCheck(rows, s, day) == if s in lastCheck then Some(lastCheck[s]) else None
      ensures forall s :: StillHereAt(rows, s, day) == if s in stillHere then Some(stillHere[s]) else None
    {
      lastCheck, stillHere := map[], map[];
      for i := 0 to |rows|
        invariant forall s :: LastCheck(rows[..i], s, day) == if s in lastCheck then Some(lastCheck[s]) else None
        invariant forall s :: StillHereAt(rows[..i], s, day) == if s in stillHere then Some(stillHere[s]) else None
      {
        var c := rows[i];
        assert rows[..i + 1][..i] == rows[..i];
        if c.date == day {
          lastCheck := lastCheck[c.student := c.prompt];
          if c.answer == Some(StillHere) && c.prompt.answeredAt.Some? {
            stillHere := stillHere[c.student := c.prompt.answeredAt.value];
          }
        }
      }
      assert rows[..|rows|] == rows;
    }

    method WatchPending(seen: Seen, who: Candidate, lastCheck: Option<Prompt>, stillHere: Option<int>, center: Center, now: int)
      requires lastCheck == LastCheck(seen.checks, who.student, SchoolDay(now, cfg.zone))
      requires stillHere == StillHereAt(seen.checks, who.student, SchoolDay(now, cfg.zone))
      modifies this
      ensures Rows() == ActOnPending(old(Rows()), seen, who, UnhealthyAtFor(old(Mem()), center), now, cfg)
      ensures Mem() == old(Mem())
    {
      var day := SchoolDay(now, cfg.zone);
      var since := AbsentSince(Evidence(
        SeenAt(LatestSignal(seen.sessions, seen.signals, who.student, Face, day)),
        SeenAt(LatestSignal(seen.sessions, seen.signals, who.student, Ble, day)),
        stillHere, who.arrivedAt, StudentWindowStart(who.student, now, cfg), UnhealthyAtFor(Mem(), center)));
      var action := DecidePickupAction(now, since, lastCheck, cfg.pickup.absentMs);
      if action == Action.MarkPickedUp {
        var _ := AutoMarkPickedUp(who.student, day, now, true);
      } else if action == AskTeacher {
        checks := checks + [Check(who.student, day, Prompt(now, now + PROMPT_TTL_MS, None), None)];
      }
    }

    method WatchUndo(seen: Seen, who: Candidate, now: int)
      modifies this`records
      ensures Rows() == ActOnUndo(old(Rows()), seen, who, now, cfg)
    {
      var key := (who.student, SchoolDay(now, cfg.zone));
      if !SeenAgain(seen, who, now, cfg) {
        return;
      }
      if key in records && records[key].pickedUpAuto && records[key].pickedUpAt.Some? {
        records := records[key := records[key].(pickedUpAt := None, pickedUpAuto := false)];
      }
    }

    method WatchAllPending(seen: Seen, pending: seq<Candidate>, center: Center, now: int)
      modifies this
      ensures Rows() == ActOnAll(old(Rows()), seen, pending, UnhealthyAtFor(old(Mem()), center), now, cfg)
      ensures Mem() == old(Mem())
    {
      hide ActOnPending, UnhealthyAtFor;
      var lastCheck, stillHere := PromptsByStudent(seen.checks, SchoolDay(now, cfg.zone));
      ghost var down := UnhealthyAtFor(Mem(), center);
      for i := 0 to |pending|
        invariant Mem() == old(Mem())
        invariant ActOnAll(Rows(), seen, pending[i..], down, now, cfg) == ActOnAll(old(Rows()), seen, pending, down, now, cfg)
      {
        var s := pending[i].student;
        WatchPending(seen, pending[i], if s in lastCheck then Some(lastCheck[s]) else None,
                     if s in stillHere then Some(stillHere[s]) else None, center, now);
        assert pending[i..][1..] == pending[i + 1..];
      }
    }

    method WatchAllUndo(seen: Seen, undo: seq<Candidate>, now: int)
      modifies this`records
      ensures Rows() == UndoAll(old(Rows()), seen, undo, now, cfg)
    {
      hide ActOnUndo;
      for i := 0 to |undo|
        invariant UndoAll(Rows(), seen, undo[i..], now, cfg) == UndoAll(old(Rows()), seen, undo, now, cfg)
      {
        WatchUndo(seen, undo[i], now);
        assert undo[i..][1..] == undo[i + 1..];
      }
    }

    method WatchStudents(mine: seq<Candidate>, center: Center, now: int, readAt: nat)
      modifies this
      ensures Rows() == StudentsOutcome(old(Rows()), SeenNow(old(Rows()), readAt), mine, UnhealthyAtFor(old(Mem()), center), now, cfg)
      ensures Mem() == old(Mem())
    {
      hide ActOnAll, UndoAll, PendingOf, AutoPickedUpOf, UnhealthyAtFor;
      var seen := SeenNow(Rows(), readAt);
      WatchAllPending(seen, PendingOf(mine), center, now);
      WatchAllUndo(seen, AutoPickedUpOf(mine), now);
    }

    // No teacher has to press Start while students are pending, nor Stop after the last of them.
    method SettleSession(mine: seq<Candidate>, seen: Option<nat>, center: Center, now: int) returns (session: Option<nat>)
      requires seen.Some? ==> seen.value < |sessions|
      modifies this`sessions
      ensures (sessions, session) == SessionFor(old(sessions), mine, seen, center, now, cfg)
    {
      session := seen;
      if PendingOf(mine) != [] {
        session := EnsureAutoSession(SchoolDay(now, cfg.zone), seen, WindowStart(now, cfg), center, now);
      } else if session.Some? && sessions[session.value].autoStarted {
        sessions := Close(sessions, session.value, now);
      }
    }

    method LookForStudents(mine: seq<Candidate>, session: Option<nat>, center: Center, now: int, sys: Sys)
      requires sys.db == Rows() && sys.mem == Mem()
      modifies this
      ensures var after := LookOutcome(sys, mine, session, center, now, cfg);
              Rows() == after.db && Mem() == after.mem
    {
      if session == None || !IsGatewayOnline(Rows(), now) || !IsCameraAlive(Mem(), center, now) {
        unhealthyAt := unhealthyAt[center := now];  // never count silence while the eyes were closed
        return;
      }
      WatchStudents(mine, center, now, sys.steps);
    }

    method WatchCenter(mine: seq<Candidate>, seen: Option<nat>, center: Center, now: int, sys: Sys)
      requires seen.Some? ==> seen.value < |sessions|
      requires sys.db == Rows() && sys.mem == Mem()
      modifies this
      ensures var after := CenterOutcome(sys, mine, seen, center, now, cfg);
              Rows() == after.db && Mem() == after.mem
    {
      hide LookOutcome, SessionFor;
      var session := SettleSession(mine, seen, center, now);
      if mine != [] {
        LookForStudents(mine, session, center, now, sys.(db := Rows()));
      }
    }

    // Candidates per center, in the order in which their centers first appear.
    method GroupByCenter(candidates: seq<Candidate>) returns (byCenter: map<Center, seq<Candidate>>, keys: seq<Center>)
      ensures Distinct(keys) && forall c :: c in keys <==> c in byCenter
      ensures forall c :: OfCenter(candidates, c, cfg) == if c in byCenter then byCenter[c] else []
      ensures forall c :: c in byCenter ==> byCenter[c] != []
    {
      hide OfCenter;
      byCenter, keys := map[], [];
      NoneOfCenter(cfg);
      for i := 0 to |candidates|
        invariant Distinct(keys) && forall c :: c in keys <==> c in byCenter
        invariant forall c :: OfCenter(candidates[..i], c, cfg) == if c in byCenter then byCenter[c] else []
        invariant forall c :: c in byCenter ==> byCenter[c] != []
      {
        var c := CenterOf(candidates[i].student, cfg);
        assert candidates[..i + 1] == candidates[..i] + [candidates[i]];
        forall d ensures OfCenter(candidates[..i + 1], d, cfg)
                         == OfCenter(candidates[..i], d, cfg) + (if d == c then [candidates[i]] else [])
        {
          OfCenterAppends(candidates[..i], candidates[i], d, cfg);
        }
        if c !in byCenter {
          keys := keys + [c];
        }
        byCenter := byCenter[c := (if c in byCenter then byCenter[c] else []) + [candidates[i]]];
      }
      assert candidates[..|candidates|] == candidates;
    }

    // A center whose last student was just picked up has no records but may still have a session.
    method AddSessionCenters(grouped: map<Center, seq<Candidate>>, groupKeys: seq<Center>, sessionOrder: seq<Center>)
      returns (byCenter: map<Center, seq<Candidate>>, keys: seq<Center>)
      requires Distinct(groupKeys) && forall c :: c in groupKeys <==> c in grouped
      ensures Distinct(keys) && forall c :: c in keys <==> c in byCenter
      ensures forall c :: c in byCenter <==> c in sessionOrder || c in grouped
      ensures forall c :: c in byCenter ==> byCenter[c] == if c in grouped then grouped[c] else []
    {
      byCenter, keys := grouped, groupKeys;
      for i := 0 to |sessionOrder|
        invariant Distinct(keys) && forall c :: c in keys <==> c in byCenter
        invariant forall c :: c in byCenter <==> c in sessionOrder[..i] || c in grouped
        invariant forall c :: c in byCenter ==> byCenter[c] == if c in grouped then grouped[c] else []
      {
        var c := sessionOrder[i];
        assert sessionOrder[..i + 1] == sessionOrder[..i] + [c];
        if c !in byCenter {
          byCenter, keys := byCenter[c := []], keys + [c];
        }
      }
      assert sessionOrder[..|sessionOrder|] == sessionOrder;
    }

    method WatchCenters(byCenter: map<Center, seq<Candidate>>, tick: Tick)
      requires SessionIdsOk(tick.sessions, sessions)
      requires forall c :: c in tick.todo ==> c in byCenter && byCenter[c] == OfCenter(tick.candidates, c, cfg)
      modifies this
      ensures var after := CentersOutcome(Sys(old(Rows()), old(Mem()), Idle, 0), tick, cfg);
              Rows() == after.db && Mem() == after.mem
    {
      hide CenterOutcome, OfCenter;
      var sys := Sys(Rows(), Mem(), Idle, 0);
      ghost var target := CentersOutcome(sys, tick, cfg);
      for i := 0 to |tick.todo|
        invariant Rows() == sys.db && Mem() == sys.mem && SessionIdsOk(tick.sessions, sys.db.sessions)
        invariant CentersOutcome(sys, tick.(todo := tick.todo[i..]), cfg) == target
      {
        var c := tick.todo[i];
        var seen := SeenSession(tick, c);
        CenterOnlyAddsSessions(sys, byCenter[c], seen, c, tick.now, cfg);
        WatchCenter(byCenter[c], seen, c, tick.now, sys);
        assert tick.todo[i..][1..] == tick.todo[i + 1..];
        sys := CenterOutcome(sys, byCenter[c], seen, c, tick.now, cfg);
      }
    }

    // `order` and `sessionOrder`: how the database happens to return the records and the sessions.
    method RunPickupWatch(order: seq<Student>, sessionOrder: seq<Center>, now: int) returns (centers: seq<Center>)
      requires TypesOpen(now, cfg) != [] ==>
                 && Distinct(order) && (forall s :: s in order <==> s in cfg.roster && IsCandidate(Rows(), s, now, cfg))
                 && Distinct(sessionOrder) && forall c :: c in sessionOrder <==> c in SessionsByCenter(sessions)
      modifies this
      ensures TypesOpen(now, cfg) != [] ==> LegalOrder(old(Rows()), order, centers, now, SessionsByCenter(old(sessions)), cfg)
      ensures var after := RunOutcome(Sys(old(Rows()), old(Mem()), Idle, 0), order, centers, now, cfg);
              Rows() == after.db && Mem() == after.mem
    {
      hide IsCandidate, OfCenter, CentersOutcome, TypesOpen, SessionsByCenter;
      centers := [];
      if TypesOpen(now, cfg) == [] {
        return;
      }
      var active := SessionsByCenter(sessions);
      var candidates := ReadCandidates(Rows(), order, now, cfg);
      var grouped, groupKeys := GroupByCenter(candidates);
      var byCenter;
      byCenter, centers := AddSessionCenters(grouped, groupKeys, sessionOrder);
      CandidatesOfOrder(Rows(), order, now, cfg);
      CentersOfCandidates(candidates, cfg);
      WatchCenters(byCenter, Tick(now, active, candidates, centers, 0));
    }
  }

  lemma CandidatesOfOrder(db: Db, order: seq<Student>, now: int, cfg: Config)
    requires forall s :: s in order ==> IsCandidate(db, s, now, cfg)
    ensures forall w :: w in ReadCandidates(db, order, now, cfg) ==> w.student in order
    ensures forall s :: s in order ==> exists w :: w in ReadCandidates(db, order, now, cfg) && w.student == s
  {
    var candidates := ReadCandidates(db, order, now, cfg);
    forall s | s in order ensures exists w :: w in candidates && w.student == s {
      var i :| 0 <= i < |order| && order[i] == s;
      assert candidates[i] in candidates && candidates[i].student == s;
    }
  }

  lemma {:induction false} CentersOfCandidates(cs: seq<Candidate>, cfg: Config)
    ensures forall c :: OfCenter(cs, c, cfg) != [] <==> exists w :: w in cs && CenterOf(w.student, cfg) == c
  {
    if cs != [] {
      CentersOfCandidates(cs[1..], cfg);
      assert cs == [cs[0]] + cs[1..];
    }
  }

  lemma NoneOfCenter(cfg: Config)
    ensures forall c :: OfCenter([], c, cfg) == []
  {
  }

  lemma {:induction false} OfCenterAppends(front: seq<Candidate>, last: Candidate, center: Center, cfg: Config)
    ensures OfCenter(front + [last], center, cfg)
         == OfCenter(front, center, cfg) + (if CenterOf(last.student, cfg) == center then [last] else [])
  {
    if front != [] {
      OfCenterAppends(front[1..], last, center, cfg);
      assert (front + [last])[1..] == front[1..] + [last];
    } else {
      assert (front + [last])[1..] == [];
    }
  }
}

/** Live attendance and automatic pickup: the rows, every request that writes them, and the periodic
    pickup watch cut at the points where it waits for the database, so that requests can come between. */
module Attendance {
  import opened Options
  import opened SchoolTime
  import opened Signals
  import opened PickupPolicy

  type Student = nat
  type Center = Option<nat>  // None: the teachers not yet assigned to a center
  type Day = int
  type Key = (Student, Day)

  datatype Status = Present | Absent | Excused

  datatype Record = Record(status: Status, arrivedAt: Option<int>, pickedUpAt: Option<int>, pickedUpAuto: bool)

  datatype Verification = Verification(session: nat, faceDistance: real, bleRssi: real, verifiedAt: int)

  datatype Session = Session(
    date: Day, center: Center, active: bool, autoStarted: bool, startedAt: int, endedAt: Option<int>)

  datatype Answer = StillHere | PickedUp

  datatype Check = Check(student: Student, date: Day, prompt: Prompt, answer: Option<Answer>)

  type SignalKey = (nat, Student, Kind)

  // Session and check rows are never deleted, so a row's id is its position.
  datatype Db = Db(
    records: map<Key, Record>,
    verifications: map<Key, Verification>,
    sessions: seq<Session>,
    signals: map<SignalKey, Signal>,
    checks: seq<Check>,
    gatewaySeenAt: Option<int>)

  // What the server process remembers between runs of the watch.
  datatype Memory = Memory(healthySince: int, unhealthyAt: map<Center, int>, lastFrameAt: map<Center, int>)

  // `tracked`: an active student with at least one enabled tag.
  datatype Enrolment = Enrolment(session: SessionType, center: Center, tracked: bool)

  datatype Config = Config(zone: int, verify: VerifyConfig, pickup: PickupConfig, roster: map<Student, Enrolment>)

  // Two databases agree about one student's day.
  ghost predicate Untouched(db: Db, db': Db, key: Key) {
    && (key in db'.records <==> key in db.records)
    && (key in db.records ==> db'.records[key] == db.records[key])
    && (key in db'.verifications <==> key in db.verifications)
    && (key in db.verifications ==> db'.verifications[key] == db.verifications[key])
  }

  // ---- manual writers ----------------------------------------------------------

  // A real arrival time exists only when today's record is marked.
  function ArrivedAtFor(status: Status, day: Day, now: int, cfg: Config): Option<int> {
    if status == Present && day == SchoolDay(now, cfg.zone) then Some(now) else None
  }

  // Re-marking starts the day from scratch and drops any automatic evidence.
  function Upsert(db: Db, key: Key, status: Status, now: int, cfg: Config): Db {
    db.(records := db.records[key := Record(status, ArrivedAtFor(status, key.1, now, cfg), None, false)],
        verifications := db.verifications - {key})
  }

  function UpdateAttendance(db: Db, key: Key, status: Status, now: int, cfg: Config): Db {
    if key.1 > SchoolDay(now, cfg.zone) then db else Upsert(db, key, status, now, cfg)
  }

  datatype Entry = Entry(key: Key, status: Status)

  function StatusOf(records: map<Key, Record>, key: Key): Option<Status> {
    if key in records then Some(records[key].status) else None
  }

  function ToWrite(records: map<Key, Record>, entries: seq<Entry>): seq<Entry> {
    if entries == [] then []
    else
      var rest := ToWrite(records, entries[1..]);
      if StatusOf(records, entries[0].key) == Some(entries[0].status) then rest else [entries[0]] + rest
  }

  function UpsertAll(db: Db, entries: seq<Entry>, now: int, cfg: Config): Db {
    if entries == [] then db
    else
      var last := entries[|entries| - 1];
      Upsert(UpsertAll(db, entries[..|entries| - 1], now, cfg), last.key, last.status, now, cfg)
  }

  // The write of a bulk save or an import: rows whose status already matches stay as they are.
  function RecordAttendance(db: Db, entries: seq<Entry>, now: int, cfg: Config): Db {
    if exists k :: 0 <= k < |entries| && entries[k].key.1 > SchoolDay(now, cfg.zone) then db
    else UpsertAll(db, ToWrite(db.records, entries), now, cfg)
  }

  predicate AwaitsPickup(db: Db, key: Key) {
    && key in db.records
    && db.records[key].status == Present
    && db.records[key].arrivedAt.Some?
    && db.records[key].pickedUpAt == None
  }

  // One guarded update: only a present, arrived, not yet picked up record changes.
  function MarkPickedUpGuarded(db: Db, key: Key, now: int, auto: bool): Db {
    if !AwaitsPickup(db, key) then db
    else db.(records := db.records[key := db.records[key].(pickedUpAt := Some(now), pickedUpAuto := auto)])
  }

  function MarkPickedUpByTeacher(db: Db, student: Student, now: int, cfg: Config): Db {
    MarkPickedUpGuarded(db, (student, SchoolDay(now, cfg.zone)), now, false)
  }

  // ---- automatic arrival -------------------------------------------------------

  datatype Outcome = Pending | NewlyVerified | AlreadyRecorded

  function MarkVerified(db: Db, session: nat, key: Key, face: Signal, ble: Signal, now: int): (Db, Outcome) {
    if key in db.records && db.records[key].status != Absent then (db, AlreadyRecorded)
    else (db.(records := db.records[key := Record(Present, Some(now), None, false)],
              verifications := db.verifications[key := Verification(session, face.score, ble.score, now)]),
          NewlyVerified)
  }

  function SignalAt(signals: map<SignalKey, Signal>, key: SignalKey): Option<Signal> {
    if key in signals then Some(signals[key]) else None
  }

  function Other(kind: Kind): Kind {
    if kind == Face then Ble else Face
  }

  // One sighting, recorded in an existing session.
  function RecordSignal(db: Db, session: nat, student: Student, kind: Kind, value: real, now: int, cfg: Config)
    : (Db, Outcome)
    requires session < |db.sessions|
  {
    var next := MergeSignal(SignalAt(db.signals, (session, student, kind)), value, now, cfg.verify);
    var db' := db.(signals := db.signals[(session, student, kind) := next]);
    var other := SignalAt(db'.signals, (session, student, Other(kind)));
    var face := if kind == Face then Some(next) else other;
    var ble := if kind == Ble then Some(next) else other;
    if !Verified(face, ble, now, cfg.verify) then (db', Pending)
    else MarkVerified(db', session, (student, db.sessions[session].date), face.value, ble.value, now)
  }

  // ---- sessions ----------------------------------------------------------------

  const STALE_AFTER_MS := 43_200_000

  function Close(sessions: seq<Session>, id: nat, now: int): seq<Session>
    requires id < |sessions|
  {
    if sessions[id].active then sessions[id := sessions[id].(active := false, endedAt := Some(now))] else sessions
  }

  function FindActive(sessions: seq<Session>, center: Center): (id: Option<nat>)
    ensures id.Some? ==> id.value < |sessions| && sessions[id.value].active && sessions[id.value].center == center
    ensures id == None ==> forall k :: 0 <= k < |sessions| ==> !(sessions[k].active && sessions[k].center == center)
  {
    if sessions == [] then None
    else
      var last := |sessions| - 1;
      if sessions[last].active && sessions[last].center == center then Some(last)
      else FindActive(sessions[..last], center)
  }

  // The unique index: a second active session of one center is refused.
  function InsertActive(sessions: seq<Session>, date: Day, center: Center, auto: bool, now: int): seq<Session> {
    if FindActive(sessions, center).Some? then sessions
    else sessions + [Session(date, center, true, auto, now, None)]
  }

  function StartSession(db: Db, center: Center, now: int, cfg: Config): Db {
    var today := SchoolDay(now, cfg.zone);
    var existing := FindActive(db.sessions, center);
    if existing.Some? && db.sessions[existing.value].date == today then db
    else
      var closed := if existing.Some? then Close(db.sessions, existing.value, now) else db.sessions;
      db.(sessions := InsertActive(closed, today, center, false, now))
  }

  function StopSession(db: Db, center: Center, now: int): Db {
    db.(sessions := seq(|db.sessions|, i requires 0 <= i < |db.sessions| =>
          if db.sessions[i].active && db.sessions[i].center == center
          then db.sessions[i].(active := false, endedAt := Some(now)) else db.sessions[i]))
  }

  function CloseStaleSessions(db: Db, now: int): Db {
    db.(sessions := seq(|db.sessions|, i requires 0 <= i < |db.sessions| =>
          if db.sessions[i].active && db.sessions[i].startedAt < now - STALE_AFTER_MS
          then db.sessions[i].(active := false, endedAt := Some(now)) else db.sessions[i]))
  }

  predicate StoppedSince(sessions: seq<Session>, date: Day, center: Center, windowStart: int) {
    exists k :: 0 <= k < |sessions| && StoppedHere(sessions[k], date, center, windowStart)
  }

  predicate StoppedHere(s: Session, date: Day, center: Center, windowStart: int) {
    && s.date == date && s.center == center && s.autoStarted && !s.active
    && s.endedAt.Some? && s.endedAt.value >= windowStart
  }

  // `session` is what the watch saw active at the center when its run began.
  function EnsureAutoSession(sessions: seq<Session>, today: Day, session: Option<nat>, windowStart: int,
                             center: Center, now: int): (r: (seq<Session>, Option<nat>))
    requires session.Some? ==> session.value < |sessions|
    ensures r.1.Some? ==> r.1.value < |r.0|
  {
    if session.Some? && sessions[session.value].date == today then (sessions, session)
    else
      var closed := if session.Some? then Close(sessions, session.value, now) else sessions;
      if StoppedSince(closed, today, center, windowStart) then (closed, None)
      else
        var created := InsertActive(closed, today, center, true, now);
        (created, FindActive(created, center))
  }

  // ---- prompts -----------------------------------------------------------------

  predicate Claimable(db: Db, id: nat, now: int, cfg: Config) {
    && id < |db.checks|
    && db.checks[id].date == SchoolDay(now, cfg.zone)
    && db.checks[id].prompt.answeredAt == None
    && db.checks[id].prompt.expiresAt > now
  }

  function AnswerPickupCheck(db: Db, id: nat, stillHere: bool, now: int, cfg: Config): Db {
    if !Claimable(db, id, now, cfg) then db
    else
      var c := db.checks[id];
      var answered := c.(prompt := c.prompt.(answeredAt := Some(now)),
                         answer := Some(if stillHere then StillHere else PickedUp));
      var db' := db.(checks := db.checks[id := answered]);
      if stillHere then db' else MarkPickedUpGuarded(db', (c.student, c.date), now, false)
  }

  // The newest sighting of one kind across the sessions of one day.
  function LatestSignal(sessions: seq<Session>, signals: map<SignalKey, Signal>, student: Student, kind: Kind, day: Day)
    : Option<Signal>
  {
    if sessions == [] then None
    else
      var last := |sessions| - 1;
      var best := LatestSignal(sessions[..last], signals, student, kind, day);
      if sessions[last].date == day && (last, student, kind) in signals
         && (best.Some? ==> signals[(last, student, kind)].lastSeenAt > best.value.lastSeenAt)
      then Some(signals[(last, student, kind)]) else best
  }

  function LastCheck(checks: seq<Check>, student: Student, day: Day): Option<Prompt> {
    if checks == [] then None
    else
      var last := checks[|checks| - 1];
      if last.student == student && last.date == day then Some(last.prompt)
      else LastCheck(checks[..|checks| - 1], student, day)
  }

  predicate IsStillHere(c: Check, student: Student, day: Day) {
    c.student == student && c.date == day && c.answer == Some(StillHere) && c.prompt.answeredAt.Some?
  }

  function StillHereAt(checks: seq<Check>, student: Student, day: Day): Option<int> {
    if checks == [] then None
    else
      var last := checks[|checks| - 1];
      if IsStillHere(last, student, day) then last.prompt.answeredAt
      else StillHereAt(checks[..|checks| - 1], student, day)
  }

  // ---- hardware ----------------------------------------------------------------

  const GATEWAY_ONLINE_MS := 30_000
  const CAMERA_ALIVE_MS := 30_000

  predicate IsGatewayOnline(db: Db, now: int) {
    db.gatewaySeenAt.Some? && db.gatewaySeenAt.value > now - GATEWAY_ONLINE_MS
  }

  predicate IsCameraAlive(mem: Memory, center: Center, now: int) {
    center in mem.lastFrameAt && now - mem.lastFrameAt[center] <= CAMERA_ALIVE_MS
  }

  function UnhealthyAtFor(mem: Memory, center: Center): int {
    if center in mem.unhealthyAt then mem.unhealthyAt[center] else mem.healthySince
  }

  // ---- the pickup watch, one wait at a time --------------------------------------

  // A record as the run read it: present and arrived on the run's day.
  datatype Candidate = Candidate(student: Student, arrivedAt: int, pickedUpAt: Option<int>, pickedUpAuto: bool)

  // `readAt`: how many steps of the system came before the records were read.
  datatype Tick = Tick(now: int, sessions: map<Center, nat>, candidates: seq<Candidate>, todo: seq<Center>, readAt: nat)

  // The signal and prompt rows as the run read them, after `readAt` steps.
  datatype Seen = Seen(sessions: seq<Session>, signals: map<SignalKey, Signal>, checks: seq<Check>, readAt: nat)

  datatype Watch =
    | Idle
    | Began(start: int, active: map<Center, nat>)
    | AtCenter(tick: Tick)
    | AtEyes(tick: Tick, center: Center, session: Option<nat>)
    | AtRead(tick: Tick, center: Center)
    | AtStudents(tick: Tick, center: Center, seen: Seen, pending: seq<Candidate>, undo: seq<Candidate>)

  datatype Sys = Sys(db: Db, mem: Memory, watch: Watch, steps: nat)

  function SessionsByCenter(sessions: seq<Session>): (m: map<Center, nat>)
    ensures forall c :: c in m ==> m[c] < |sessions| && sessions[m[c]].active && sessions[m[c]].center == c
    ensures forall k :: 0 <= k < |sessions| && sessions[k].active ==> sessions[k].center in m
  {
    if sessions == [] then map[]
    else
      var last := |sessions| - 1;
      var m := SessionsByCenter(sessions[..last]);
      if sessions[last].active then m[sessions[last].center := last] else m
  }

  function TypesOpen(now: int, cfg: Config): seq<SessionType> {
    SessionsInWindow(SchoolMinutesOfDay(now, cfg.zone), cfg.pickup)
  }

  // A run that would overlap another, or outside every window, does nothing.
  function BeginTick(sys: Sys, now: int, cfg: Config): Sys {
    if sys.watch != Idle || TypesOpen(now, cfg) == [] then sys
    else sys.(watch := Began(now, SessionsByCenter(sys.db.sessions)))
  }

  predicate IsCandidate(db: Db, student: Student, now: int, cfg: Config) {
    var key := (student, SchoolDay(now, cfg.zone));
    && student in cfg.roster
    && cfg.roster[student].tracked
    && cfg.roster[student].session in TypesOpen(now, cfg)
    && key in db.records
    && db.records[key].status == Present
    && db.records[key].arrivedAt.Some?
  }

  function ReadCandidate(db: Db, student: Student, now: int, cfg: Config): Candidate
    requires IsCandidate(db, student, now, cfg)
  {
    var r := db.records[(student, SchoolDay(now, cfg.zone))];
    Candidate(student, r.arrivedAt.value, r.pickedUpAt, r.pickedUpAuto)
  }

  function ReadCandidates(db: Db, order: seq<Student>, now: int, cfg: Config): seq<Candidate>
    requires forall s :: s in order ==> IsCandidate(db, s, now, cfg)
  {
    seq(|order|, i requires 0 <= i < |order| => ReadCandidate(db, order[i], now, cfg))
  }

  function CenterOf(student: Student, cfg: Config): Center {
    if student in cfg.roster then cfg.roster[student].center else None
  }

  predicate Distinct<T(==)>(s: seq<T>) {
    forall i, j :: 0 <= i < j < |s| ==> s[i] != s[j]
  }

  // `order` and `centers` are the order in which the database happens to return the rows: each
  // candidate once, each center with a candidate or an active session once.
  predicate LegalOrder(db: Db, order: seq<Student>, centers: seq<Center>, now: int, active: map<Center, nat>, cfg: Config) {
    && Distinct(order)
    && (forall s :: s in order ==> IsCandidate(db, s, now, cfg))
    && (forall s :: s in cfg.roster && IsCandidate(db, s, now, cfg) ==> s in order)
    && Distinct(centers)
    && (forall c :: c in centers ==> c in active || exists s :: s in order && CenterOf(s, cfg) == c)
    && (forall c :: c in active ==> c in centers)
    && (forall s :: s in order ==> CenterOf(s, cfg) in centers)
  }

  function OfCenter(candidates: seq<Candidate>, center: Center, cfg: Config): seq<Candidate> {
    if candidates == [] then []
    else
      var rest := OfCenter(candidates[1..], center, cfg);
      if CenterOf(candidates[0].student, cfg) == center then [candidates[0]] + rest else rest
  }

  function PendingOf(candidates: seq<Candidate>): seq<Candidate> {
    if candidates == [] then []
    else
      var rest := PendingOf(candidates[1..]);
      if candidates[0].pickedUpAt == None then [candidates[0]] + rest else rest
  }

  function AutoPickedUpOf(candidates: seq<Candidate>): seq<Candidate> {
    if candidates == [] then []
    else
      var rest := AutoPickedUpOf(candidates[1..]);
      if candidates[0].pickedUpAt.Some? && candidates[0].pickedUpAuto then [candidates[0]] + rest else rest
  }

  function WindowStart(now: int, cfg: Config): int {
    var types := TypesOpen(now, cfg);
    if types == [] then now
    else InstantAtMinute(now, SchoolMinutesOfDay(now, cfg.zone), EarliestStartMin(types, cfg.pickup))
  }

  function NextCenter(tick: Tick): Watch
    requires tick.todo != []
  {
    AtCenter(tick.(todo := tick.todo[1..]))
  }

  predicate WatchOk(sys: Sys) {
    match sys.watch
    case Idle => true
    case Began(_, active) => SessionIdsOk(active, sys.db.sessions)
    case AtCenter(t) => SessionIdsOk(t.sessions, sys.db.sessions)
    case AtEyes(t, _, s) => SessionIdsOk(t.sessions, sys.db.sessions) && t.todo != [] && (s.Some? ==> s.value < |sys.db.sessions|)
    case AtRead(t, _) => SessionIdsOk(t.sessions, sys.db.sessions) && t.todo != []
    case AtStudents(t, _, _, _, _) => SessionIdsOk(t.sessions, sys.db.sessions) && t.todo != []
  }

  predicate SessionIdsOk(ids: map<Center, nat>, sessions: seq<Session>) {
    forall c :: c in ids ==> ids[c] < |sessions|
  }

  function SeenSession(tick: Tick, center: Center): Option<nat> {
    if center in tick.sessions then Some(tick.sessions[center]) else None
  }

  // A center's session: started for its pending students, or ended after the last of them.
  function CenterStep(sys: Sys, tick: Tick, now: int, cfg: Config): Sys
    requires WatchOk(sys) && sys.watch == AtCenter(tick)
  {
    if tick.todo == [] then sys.(watch := Idle)
    else
      var center := tick.todo[0];
      var mine := OfCenter(tick.candidates, center, cfg);
      var session := SeenSession(tick, center);
      var (sessions, session') :=
        if PendingOf(mine) != [] then
          EnsureAutoSession(sys.db.sessions, SchoolDay(tick.now, cfg.zone), session, WindowStart(tick.now, cfg), center, now)
        else if session.Some? && sys.db.sessions[session.value].autoStarted then
          (Close(sys.db.sessions, session.value, tick.now), session)
        else (sys.db.sessions, session);
      sys.(db := sys.db.(sessions := sessions),
           watch := if mine == [] then NextCenter(tick) else AtEyes(tick, center, session'))
  }

  predicate HardwareUp(sys: Sys, center: Center, session: Option<nat>, now: int) {
    session.Some? && IsGatewayOnline(sys.db, now) && IsCameraAlive(sys.mem, center, now)
  }

  function EyesStep(sys: Sys, tick: Tick, center: Center, session: Option<nat>): Sys
    requires tick.todo != []
  {
    if HardwareUp(sys, center, session, tick.now) then sys.(watch := AtRead(tick, center))
    else sys.(mem := sys.mem.(unhealthyAt := sys.mem.unhealthyAt[center := tick.now]), watch := NextCenter(tick))
  }

  function ReadStep(sys: Sys, tick: Tick, center: Center, cfg: Config): Sys {
    var mine := OfCenter(tick.candidates, center, cfg);
    sys.(watch := AtStudents(tick, center, Seen(sys.db.sessions, sys.db.signals, sys.db.checks, sys.steps),
                             PendingOf(mine), AutoPickedUpOf(mine)))
  }

  function SeenAt(s: Option<Signal>): Option<int> {
    if s.Some? then Some(s.value.lastSeenAt) else None
  }

  function StudentWindowStart(student: Student, now: int, cfg: Config): int {
    var session := if student in cfg.roster then cfg.roster[student].session else Morning;
    InstantAtMinute(now, SchoolMinutesOfDay(now, cfg.zone), StartMin(session, cfg.pickup))
  }

  function EvidenceOf(seen: Seen, who: Candidate, unhealthyAt: int, now: int, cfg: Config): Evidence {
    var day := SchoolDay(now, cfg.zone);
    Evidence(
      SeenAt(LatestSignal(seen.sessions, seen.signals, who.student, Face, day)),
      SeenAt(LatestSignal(seen.sessions, seen.signals, who.student, Ble, day)),
      StillHereAt(seen.checks, who.student, day),
      who.arrivedAt,
      StudentWindowStart(who.student, now, cfg),
      unhealthyAt)
  }

  function ActionFor(seen: Seen, who: Candidate, unhealthyAt: int, now: int, cfg: Config): Action {
    DecidePickupAction(now, AbsentSince(EvidenceOf(seen, who, unhealthyAt, now, cfg)),
                       LastCheck(seen.checks, who.student, SchoolDay(now, cfg.zone)), cfg.pickup.absentMs)
  }

  function NewCheck(student: Student, now: int, cfg: Config): Check {
    Check(student, SchoolDay(now, cfg.zone), Prompt(now, now + PROMPT_TTL_MS, None), None)
  }

  function ActOnPending(db: Db, seen: Seen, who: Candidate, unhealthyAt: int, now: int, cfg: Config): Db {
    match ActionFor(seen, who, unhealthyAt, now, cfg)
    case MarkPickedUp => MarkPickedUpGuarded(db, (who.student, SchoolDay(now, cfg.zone)), now, true)
    case AskTeacher => db.(checks := db.checks + [NewCheck(who.student, now, cfg)])
    case Wait => db
  }

  // Both signals are new since the pickup and pass the same test as an arrival.
  predicate SeenAgain(seen: Seen, who: Candidate, now: int, cfg: Config) {
    var day := SchoolDay(now, cfg.zone);
    var face := LatestSignal(seen.sessions, seen.signals, who.student, Face, day);
    var ble := LatestSignal(seen.sessions, seen.signals, who.student, Ble, day);
    && who.pickedUpAt.Some? && face.Some? && ble.Some?
    && face.value.lastSeenAt > who.pickedUpAt.value
    && ble.value.lastSeenAt > who.pickedUpAt.value
    && Verified(face, ble, now, cfg.verify)
  }

  function ActOnUndo(db: Db, seen: Seen, who: Candidate, now: int, cfg: Config): Db {
    var key := (who.student, SchoolDay(now, cfg.zone));
    if SeenAgain(seen, who, now, cfg) && key in db.records
       && db.records[key].pickedUpAuto && db.records[key].pickedUpAt.Some?
    then db.(records := db.records[key := db.records[key].(pickedUpAt := None, pickedUpAuto := false)])
    else db
  }

  function StudentsStep(sys: Sys, cfg: Config): Sys
    requires sys.watch.AtStudents? && sys.watch.tick.todo != []
  {
    var w := sys.watch;
    if w.pending != [] then
      sys.(db := ActOnPending(sys.db, w.seen, w.pending[0], UnhealthyAtFor(sys.mem, w.center), w.tick.now, cfg),
           watch := w.(pending := w.pending[1..]))
    else if w.undo != [] then
      sys.(db := ActOnUndo(sys.db, w.seen, w.undo[0], w.tick.now, cfg), watch := w.(undo := w.undo[1..]))
    else sys.(watch := NextCenter(w.tick))
  }

  // The watch goes on from where it waited; the wall clock shows `now`.
  function WatchStep(sys: Sys, order: seq<Student>, centers: seq<Center>, now: int, cfg: Config): Sys
    requires WatchOk(sys)
  {
    match sys.watch
    case Idle => sys
    case Began(start, active) =>
      if LegalOrder(sys.db, order, centers, start, active, cfg)
      then sys.(watch := AtCenter(Tick(start, active, ReadCandidates(sys.db, order, start, cfg), centers, sys.steps)))
      else sys
    case AtCenter(tick) => CenterStep(sys, tick, now, cfg)
    case AtEyes(tick, center, session) => EyesStep(sys, tick, center, session)
    case AtRead(tick, center) => ReadStep(sys, tick, center, cfg)
    case AtStudents(_, _, _, _, _) => StudentsStep(sys, cfg)
  }

  // What the watch was doing fails: the run, the center or the student is given up.
  function WatchFails(sys: Sys): Sys
    requires WatchOk(sys)
  {
    match sys.watch
    case Idle => sys
    case Began(_, _) => sys.(watch := Idle)
    case AtCenter(tick) => if tick.todo == [] then sys.(watch := Idle) else sys.(watch := NextCenter(tick))
    case AtEyes(tick, _, _) => sys.(watch := NextCenter(tick))
    case AtRead(tick, _) => sys.(watch := NextCenter(tick))
    case AtStudents(tick, _, _, pending, undo) =>
      if pending != [] then sys.(watch := sys.watch.(pending := pending[1..]))
      else if undo != [] then sys.(watch := sys.watch.(undo := undo[1..]))
      else sys.(watch := NextCenter(tick))
  }

  // ---- everything that can happen ------------------------------------------------

  datatype Event =
    | Sighting(session: nat, student: Student, kind: Kind, value: real)
    | SaveStatus(key: Key, status: Status)
    | SaveStatuses(entries: seq<Entry>)
    | PickUp(student: Student)
    | AnswerCheck(id: nat, stillHere: bool)
    | PressStart(center: Center)
    | PressStop(center: Center)
    | StaleCleanup
    | CameraFrame(center: Center)
    | GatewayHeard
    | TickBegins
    | WatchGoesOn(order: seq<Student>, centers: seq<Center>)
    | WatchStumbles
    | ProcessRestarts

  datatype Stamped = Stamped(at: int, event: Event)

  function Effect(sys: Sys, e: Stamped, cfg: Config): Sys
    requires WatchOk(sys)
  {
    var db := sys.db;
    match e.event
    case Sighting(session, student, kind, value) =>
      if session < |db.sessions|
      then sys.(db := RecordSignal(db, session, student, kind, value, e.at, cfg).0) else sys
    case SaveStatus(key, status) => sys.(db := UpdateAttendance(db, key, status, e.at, cfg))
    case SaveStatuses(entries) => sys.(db := RecordAttendance(db, entries, e.at, cfg))
    case PickUp(student) => sys.(db := MarkPickedUpByTeacher(db, student, e.at, cfg))
    case AnswerCheck(id, stillHere) => sys.(db := AnswerPickupCheck(db, id, stillHere, e.at, cfg))
    case PressStart(center) => sys.(db := StartSession(db, center, e.at, cfg))
    case PressStop(center) => sys.(db := StopSession(db, center, e.at))
    case StaleCleanup => sys.(db := CloseStaleSessions(db, e.at))
    case CameraFrame(center) => sys.(mem := sys.mem.(lastFrameAt := sys.mem.lastFrameAt[center := e.at]))
    case GatewayHeard => sys.(db := db.(gatewaySeenAt := Some(e.at)))
    case TickBegins => BeginTick(sys, e.at, cfg)
    case WatchGoesOn(order, centers) => WatchStep(sys, order, centers, e.at, cfg)
    case WatchStumbles => WatchFails(sys)
    case ProcessRestarts => sys.(mem := Memory(e.at, map[], map[]), watch := Idle)
  }

  lemma CenterStepKeepsWatchOk(sys: Sys, tick: Tick, now: int, cfg: Config)
    requires WatchOk(sys) && sys.watch == AtCenter(tick)
    ensures var sys' := CenterStep(sys, tick, now, cfg); WatchOk(sys') && |sys.db.sessions| <= |sys'.db.sessions|
  {
  }

  lemma WatchStepKeepsWatchOk(sys: Sys, order: seq<Student>, centers: seq<Center>, now: int, cfg: Config)
    requires WatchOk(sys)
    ensures var sys' := WatchStep(sys, order, centers, now, cfg); WatchOk(sys') && |sys.db.sessions| <= |sys'.db.sessions|
  {
    hide CenterStep, ActionFor, SeenAgain, HardwareUp, LegalOrder, ReadCandidates, OfCenter;
    if sys.watch.AtCenter? {
      CenterStepKeepsWatchOk(sys, sys.watch.tick, now, cfg);
    }
  }

  lemma EffectKeepsWatchOk(sys: Sys, e: Stamped, cfg: Config)
    requires WatchOk(sys)
    ensures WatchOk(Effect(sys, e, cfg)) && |sys.db.sessions| <= |Effect(sys, e, cfg).db.sessions|
  {
    hide UpsertAll, ToWrite, MergeSignal, Verified, WatchStep, AwaitsPickup, Claimable, FindActive, SessionsByCenter, TypesOpen;
    if e.event.SaveStatuses? {
      UpsertAllKeepsTheRest(sys.db, ToWrite(sys.db.records, e.event.entries), e.at, cfg);
    } else if e.event.WatchGoesOn? {
      WatchStepKeepsWatchOk(sys, e.event.order, e.event.centers, e.at, cfg);
    }
  }

  lemma {:induction false} UpsertAllKeepsTheRest(db: Db, entries: seq<Entry>, now: int, cfg: Config)
    ensures var db' := UpsertAll(db, entries, now, cfg);
            db' == db.(records := db'.records, verifications := db'.verifications)
  {
    if entries != [] {
      UpsertAllKeepsTheRest(db, entries[..|entries| - 1], now, cfg);
    }
  }

  function Step(sys: Sys, e: Stamped, cfg: Config): (sys': Sys)
    requires WatchOk(sys)
    ensures WatchOk(sys')
  {
    EffectKeepsWatchOk(sys, e, cfg);
    Effect(sys, e, cfg).(steps := sys.steps + 1)
  }

  function Initial(start: int): Sys {
    Sys(Db(map[], map[], [], map[], [], None), Memory(start, map[], map[]), Idle, 0)
  }
}

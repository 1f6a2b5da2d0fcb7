/** A run, event by event, in which the watch's update comes after a teacher's re-marking and leaves a
    student picked up before arriving. */
module LateArrival {
  import opened Options
  import opened SchoolTime
  import opened Signals
  import opened PickupPolicy
  import opened Attendance
  import opened Runs
  import opened RunsWatch

  // One tracked student, tracked from midnight on, in a school on UTC.
  const TEACHERLESS: Center := None
  const CFG := Config(0, VerifyConfig(0.5, 0.05, -70.0, 30_000, 2), PickupConfig(0, 720, 7_200_000, 120_000),
                      map[0 := Enrolment(Morning, TEACHERLESS, true)])

  const GO := Stamped(120_000, WatchGoesOn([0], [TEACHERLESS]))
  const RUN := Run(0, [
    Stamped(0, SaveStatus((0, 0), Present)), Stamped(0, PressStart(TEACHERLESS)), Stamped(120_000, GatewayHeard),
    Stamped(120_000, CameraFrame(TEACHERLESS)), Stamped(120_000, TickBegins), GO, GO, GO, GO,
    Stamped(121_000, SaveStatus((0, 0), Present)), Stamped(121_000, WatchGoesOn([0], [TEACHERLESS]))])

  // The database from the fourth event on, with the record as it then is.
  function DbWith(r: Record): Db {
    Db(map[(0, 0) := r], map[], [Session(0, TEACHERLESS, true, false, 0, None)], map[], [], Some(120_000))
  }

  const MEM := Memory(0, map[], map[TEACHERLESS := 120_000])
  const EARLY := Record(Present, Some(0), None, false)
  const LATE := Record(Present, Some(121_000), None, false)
  const WHO := Candidate(0, 0, None, false)
  const TICK := Tick(120_000, map[TEACHERLESS := 0], [WHO], [TEACHERLESS], 5)
  const SEEN := Seen([Session(0, TEACHERLESS, true, false, 0, None)], map[], [], 8)
  const DECIDING := AtStudents(TICK, TEACHERLESS, SEEN, [WHO], [])

  lemma OneMore(n: nat, before: Sys, after: Sys)
    requires n < |RUN.events| && WatchOk(before) && StateAt(RUN, n, CFG) == before
    requires Step(before, RUN.events[n], CFG) == after
    ensures StateAt(RUN, n + 1, CFG) == after
  {
  }

  const MARKED := Sys(Db(map[(0, 0) := EARLY], map[], [], map[], [], None), Memory(0, map[], map[]), Idle, 1)
  const STARTED := MARKED.(db := DbWith(EARLY).(gatewaySeenAt := None), steps := 2)

  lemma Begins()
    ensures StateAt(RUN, 2, CFG) == STARTED
  {
    hide StateAt;
    Start();
    OneMore(0, Initial(0), MARKED);
    OneMore(1, MARKED, STARTED);
  }

  lemma Arrives()
    ensures StateAt(RUN, 4, CFG) == Sys(DbWith(EARLY), MEM, Idle, 4)
  {
    hide StateAt;
    Begins();
    OneMore(2, STARTED, STARTED.(db := DbWith(EARLY), steps := 3));
    OneMore(3, STARTED.(db := DbWith(EARLY), steps := 3), Sys(DbWith(EARLY), MEM, Idle, 4));
  }

  lemma Start()
    ensures StateAt(RUN, 0, CFG) == Initial(0)
  {
  }

  lemma TickStarts()
    ensures StateAt(RUN, 5, CFG) == Sys(DbWith(EARLY), MEM, Began(120_000, map[TEACHERLESS := 0]), 5)
  {
    hide StateAt;
    Arrives();
    assert SchoolMinutesOfDay(120_000, 0) == 2;
    assert SessionsByCenter(DbWith(EARLY).sessions) == map[TEACHERLESS := 0] by {
      assert DbWith(EARLY).sessions[..0] == [];
    }
    OneMore(4, Sys(DbWith(EARLY), MEM, Idle, 4), Sys(DbWith(EARLY), MEM, Began(120_000, map[TEACHERLESS := 0]), 5));
  }

  lemma CandidatesRead()
    ensures StateAt(RUN, 6, CFG) == Sys(DbWith(EARLY), MEM, AtCenter(TICK), 6)
  {
    hide StateAt;
    TickStarts();
    assert SchoolMinutesOfDay(120_000, 0) == 2 && SchoolDay(120_000, 0) == 0;
    assert IsCandidate(DbWith(EARLY), 0, 120_000, CFG);
    assert ReadCandidates(DbWith(EARLY), [0], 120_000, CFG) == [WHO];
    assert CenterOf(0, CFG) == TEACHERLESS && 0 in [0];
    OneMore(5, Sys(DbWith(EARLY), MEM, Began(120_000, map[TEACHERLESS := 0]), 5), Sys(DbWith(EARLY), MEM, AtCenter(TICK), 6));
  }

  lemma CenterWatched()
    ensures StateAt(RUN, 9, CFG) == Sys(DbWith(EARLY), MEM, DECIDING, 9)
  {
    hide StateAt;
    CandidatesRead();
    assert SchoolDay(120_000, 0) == 0;
    assert OfCenter([WHO], TEACHERLESS, CFG) == [WHO];
    assert [WHO][1..] == [];
    assert PendingOf([WHO]) == [WHO];
    assert AutoPickedUpOf([WHO][1..]) == [] && WHO.pickedUpAt == None;
    OneMore(6, Sys(DbWith(EARLY), MEM, AtCenter(TICK), 6), Sys(DbWith(EARLY), MEM, AtEyes(TICK, TEACHERLESS, Some(0)), 7));
    OneMore(7, Sys(DbWith(EARLY), MEM, AtEyes(TICK, TEACHERLESS, Some(0)), 7), Sys(DbWith(EARLY), MEM, AtRead(TICK, TEACHERLESS), 8));
    OneMore(8, Sys(DbWith(EARLY), MEM, AtRead(TICK, TEACHERLESS), 8), Sys(DbWith(EARLY), MEM, DECIDING, 9));
  }

  lemma {:induction false} NobodySeen(sessions: seq<Session>, student: Student, kind: Kind, day: Day)
    ensures LatestSignal(sessions, map[], student, kind, day) == None
  {
    if sessions != [] {
      NobodySeen(sessions[..|sessions| - 1], student, kind, day);
    }
  }

  lemma GoneForTwoMinutes()
    ensures ActionFor(SEEN, WHO, 0, 120_000, CFG) == Action.MarkPickedUp
  {
    assert SchoolMinutesOfDay(120_000, 0) == 2 && SchoolDay(120_000, 0) == 0;
    NobodySeen(SEEN.sessions, 0, Face, 0);
    NobodySeen(SEEN.sessions, 0, Ble, 0);
    var evidence := EvidenceOf(SEEN, WHO, 0, 120_000, CFG);
    assert evidence == Evidence(None, None, None, 0, 0, 0);
    AbsentSinceExact(evidence);
    assert AbsentSince(evidence) == 0;
  }

  lemma MarkedAgain()
    ensures StateAt(RUN, 10, CFG) == Sys(DbWith(LATE), MEM, DECIDING, 10)
  {
    hide StateAt;
    CenterWatched();
    assert SchoolDay(121_000, 0) == 0;
    OneMore(9, Sys(DbWith(EARLY), MEM, DECIDING, 9), Sys(DbWith(LATE), MEM, DECIDING, 10));
  }

  /** The exception is real: here the student ends up picked up a second before arriving. */
  lemma PickupBeforeArrivalHappens()
    ensures Timely(RUN)
    ensures (0, 0) in StateAt(RUN, 11, CFG).db.records
    ensures StateAt(RUN, 11, CFG).db.records[(0, 0)] == Record(Present, Some(121_000), Some(120_000), true)
  {
    hide StateAt, ActionFor;
    MarkedAgain();
    GoneForTwoMinutes();
    assert SchoolDay(120_000, 0) == 0;
    var after := Sys(DbWith(LATE.(pickedUpAt := Some(120_000), pickedUpAuto := true)), MEM, DECIDING.(pending := []), 11);
    OneMore(10, Sys(DbWith(LATE), MEM, DECIDING, 10), after);
  }
}

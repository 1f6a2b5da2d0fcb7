/** What the pickup watch holds in its hands, at any point of any run: rows that really were in the
    database when it read them. */
module RunsWatch {
  import opened Options
  import opened SchoolTime
  import opened Signals
  import opened PickupPolicy
  import opened Attendance
  import opened Runs

  predicate HasTick(w: Watch) {
    !w.Idle? && !w.Began?
  }

  function TickOf(w: Watch): Tick
    requires HasTick(w)
  {
    match w
    case AtCenter(t) => t
    case AtEyes(t, _, _) => t
    case AtRead(t, _) => t
    case AtStudents(t, _, _, _, _) => t
  }

  ghost predicate DistinctStudents(cs: seq<Candidate>) {
    forall i, j :: 0 <= i < j < |cs| ==> cs[i].student != cs[j].student
  }

  // The candidates are the eligible rows as they were after `readAt` steps, each student once.
  ghost predicate TickOk(run: Run, n: nat, t: Tick, cfg: Config)
    requires n <= |run.events|
  {
    && t.readAt < n
    && run.events[t.readAt].event.WatchGoesOn?
    && StateAt(run, t.readAt, cfg).watch == Began(t.now, t.sessions)
    && DistinctStudents(t.candidates)
    && (forall c :: c in t.candidates ==> IsCandidate(StateAt(run, t.readAt, cfg).db, c.student, t.now, cfg))
    && (forall c :: c in t.candidates ==> c == ReadCandidate(StateAt(run, t.readAt, cfg).db, c.student, t.now, cfg))
    && Distinct(t.todo)
  }

  ghost predicate StudentsOk(run: Run, n: nat, w: Watch, cfg: Config)
    requires n <= |run.events| && w.AtStudents?
  {
    && w.tick.readAt < w.seen.readAt < n
    && run.events[w.seen.readAt].event.WatchGoesOn?
    && StateAt(run, w.seen.readAt, cfg).watch == AtRead(w.tick, w.center)
    && w.seen.sessions == StateAt(run, w.seen.readAt, cfg).db.sessions
    && w.seen.signals == StateAt(run, w.seen.readAt, cfg).db.signals
    && w.seen.checks == StateAt(run, w.seen.readAt, cfg).db.checks
    && PendingOk(w.pending, w.tick.candidates, w.center, cfg)
    && UndoOk(w.undo, w.tick.candidates, w.center, cfg)
  }

  ghost predicate PendingOk(pending: seq<Candidate>, candidates: seq<Candidate>, center: Center, cfg: Config) {
    && DistinctStudents(pending)
    && forall p :: p in pending ==> p in candidates && p.pickedUpAt == None && CenterOf(p.student, cfg) == center
  }

  ghost predicate UndoOk(undo: seq<Candidate>, candidates: seq<Candidate>, center: Center, cfg: Config) {
    forall p :: p in undo ==>
      p in candidates && p.pickedUpAt.Some? && p.pickedUpAuto && CenterOf(p.student, cfg) == center
  }

  ghost predicate CenterOk(w: Watch)
    requires HasTick(w)
  {
    w.AtCenter? || (w.tick.todo != [] && w.center == w.tick.todo[0])
  }

  ghost predicate WatchKnows(run: Run, n: nat, cfg: Config)
    requires n <= |run.events|
  {
    var w := StateAt(run, n, cfg).watch;
    && (HasTick(w) ==> TickOk(run, n, TickOf(w), cfg) && CenterOk(w))
    && (w.AtStudents? ==> StudentsOk(run, n, w, cfg))
  }

  lemma {:induction false} OfCenterIsPart(cs: seq<Candidate>, center: Center, cfg: Config)
    requires DistinctStudents(cs)
    ensures var mine := OfCenter(cs, center, cfg);
            && DistinctStudents(mine)
            && forall c :: c in mine <==> c in cs && CenterOf(c.student, cfg) == center
  {
    if cs != [] {
      OfCenterIsPart(cs[1..], center, cfg);
      assert cs == [cs[0]] + cs[1..];
    }
  }

  lemma {:induction false} PendingIsPart(cs: seq<Candidate>)
    requires DistinctStudents(cs)
    ensures var pending := PendingOf(cs);
            && DistinctStudents(pending)
            && forall c :: c in pending <==> c in cs && c.pickedUpAt == None
  {
    if cs != [] {
      PendingIsPart(cs[1..]);
      assert cs == [cs[0]] + cs[1..];
    }
  }

  lemma {:induction false} AutoPickedUpIsPart(cs: seq<Candidate>)
    ensures forall c :: c in AutoPickedUpOf(cs) <==> c in cs && c.pickedUpAt.Some? && c.pickedUpAuto
  {
    if cs != [] {
      AutoPickedUpIsPart(cs[1..]);
      assert cs == [cs[0]] + cs[1..];
    }
  }

  lemma TailOk(pending: seq<Candidate>, undo: seq<Candidate>, candidates: seq<Candidate>, center: Center, cfg: Config)
    requires PendingOk(pending, candidates, center, cfg) && UndoOk(undo, candidates, center, cfg)
    ensures pending != [] ==> PendingOk(pending[1..], candidates, center, cfg)
    ensures undo != [] ==> UndoOk(undo[1..], candidates, center, cfg)
  {
  }

  // How one step moves the watch along.
  ghost predicate Moves(sys: Sys, e: Event, w': Watch, cfg: Config)
    requires WatchOk(sys)
  {
    var w := sys.watch;
    || w' == w
    || !HasTick(w')
    || (w.Began? && w'.AtCenter? && e.WatchGoesOn? && LegalOrder(sys.db, e.order, e.centers, w.start, w.active, cfg)
        && w'.tick == Tick(w.start, w.active, ReadCandidates(sys.db, e.order, w.start, cfg), e.centers, sys.steps))
    || (HasTick(w) && TickOf(w).todo != [] && w' == NextCenter(TickOf(w)))
    || (w.AtCenter? && w'.AtEyes? && w.tick.todo != [] && w'.tick == w.tick && w'.center == w.tick.todo[0])
    || (w.AtEyes? && e.WatchGoesOn? && w' == AtRead(w.tick, w.center))
    || (w.AtRead? && e.WatchGoesOn?
        && w' == AtStudents(w.tick, w.center, Seen(sys.db.sessions, sys.db.signals, sys.db.checks, sys.steps),
                            PendingOf(OfCenter(w.tick.candidates, w.center, cfg)),
                            AutoPickedUpOf(OfCenter(w.tick.candidates, w.center, cfg))))
    || (w.AtStudents? && w.pending != [] && w' == w.(pending := w.pending[1..]))
    || (w.AtStudents? && w.pending == [] && w.undo != [] && w' == w.(undo := w.undo[1..]))
  }

  lemma StepMoves(sys: Sys, e: Stamped, cfg: Config)
    requires WatchOk(sys)
    ensures Moves(sys, e.event, Step(sys, e, cfg).watch, cfg)
  {
  }

  lemma ReadCandidatesOk(db: Db, order: seq<Student>, now: int, cfg: Config)
    requires Distinct(order) && forall s :: s in order ==> IsCandidate(db, s, now, cfg)
    ensures var cs := ReadCandidates(db, order, now, cfg);
            && DistinctStudents(cs)
            && (forall c :: c in cs ==> c.student in order)
            && (forall c :: c in cs ==> IsCandidate(db, c.student, now, cfg))
            && (forall c :: c in cs ==> c == ReadCandidate(db, c.student, now, cfg))
  {
  }

  lemma ReadStudentsOk(t: Tick, center: Center, cfg: Config)
    requires DistinctStudents(t.candidates)
    ensures var mine := OfCenter(t.candidates, center, cfg);
            PendingOk(PendingOf(mine), t.candidates, center, cfg) && UndoOk(AutoPickedUpOf(mine), t.candidates, center, cfg)
  {
    hide OfCenter, PendingOf, AutoPickedUpOf;
    var mine := OfCenter(t.candidates, center, cfg);
    OfCenterIsPart(t.candidates, center, cfg);
    PendingIsPart(mine);
    AutoPickedUpIsPart(mine);
  }

  lemma {:induction false} WatchAlwaysKnows(run: Run, n: nat, cfg: Config)
    requires n <= |run.events|
    ensures WatchKnows(run, n, cfg)
  {
    hide Step, IsCandidate, ReadCandidate, ReadCandidates, OfCenter, PendingOf, AutoPickedUpOf, PendingOk, UndoOk;
    if n > 0 {
      WatchAlwaysKnows(run, n - 1, cfg);
      var sys, e := StateAt(run, n - 1, cfg), run.events[n - 1];
      var w, w' := sys.watch, StateAt(run, n, cfg).watch;
      StepMoves(sys, e, cfg);
      if HasTick(w') {
        if w.Began? {
          ReadCandidatesOk(sys.db, e.event.order, w.start, cfg);
        } else if w.AtRead? && w' != w && w'.AtStudents? {
          ReadStudentsOk(w.tick, w.center, cfg);
        } else if w.AtStudents? {
          TailOk(w.pending, w.undo, w.tick.candidates, w.center, cfg);
        }
      }
    } else {
      NothingKnownYet(run, cfg);
    }
  }

  lemma NothingKnownYet(run: Run, cfg: Config)
    ensures StateAt(run, 0, cfg).watch.Idle?
  {
  }
}

/** The discipline of the teacher prompts over any run. */
module RunsPrompts {
  import opened Options
  import opened SchoolTime
  import opened Signals
  import opened PickupPolicy
  import opened Attendance
  import opened Runs
  import opened RunsWatch

  ghost predicate IsOf(c: Check, student: Student, day: Day) {
    c.student == student && c.date == day
  }

  // Each prompt lasts its time and is answered, if at all, while it is open.
  ghost predicate PromptOk(c: Check, clock: int) {
    && c.prompt.expiresAt == c.prompt.createdAt + PROMPT_TTL_MS
    && 0 <= c.prompt.createdAt <= clock
    && (c.prompt.answeredAt.Some? ==> c.prompt.createdAt <= c.prompt.answeredAt.value < c.prompt.expiresAt)
  }

  // Two prompts of one student on one day start at least a minute apart.
  ghost predicate Spaced(checks: seq<Check>) {
    forall i, j :: 0 <= i < j < |checks| && IsOf(checks[j], checks[i].student, checks[i].date) ==>
      checks[i].prompt.createdAt + PROMPT_EVERY_MS <= checks[j].prompt.createdAt
  }

  // The row is the one the watch read, except that it may have been answered since.
  ghost predicate SameCheck(a: Check, b: Check) {
    && a.student == b.student && a.date == b.date
    && a.prompt.createdAt == b.prompt.createdAt && a.prompt.expiresAt == b.prompt.expiresAt
    && (a.prompt.answeredAt.Some? ==> a == b)
  }

  ghost predicate NoneFor(pending: seq<Candidate>, student: Student) {
    forall p :: p in pending ==> p.student != student
  }

  // For the students still to be decided, the prompts the watch read are still all there are.
  ghost predicate SeenAllChecks(seen: seq<Check>, now: seq<Check>, pending: seq<Candidate>) {
    && |seen| <= |now|
    && (forall k :: 0 <= k < |seen| ==> SameCheck(seen[k], now[k]))
    && (forall k :: |seen| <= k < |now| ==> NoneFor(pending, now[k].student))
  }

  ghost predicate PromptsOk(sys: Sys, clock: int) {
    && (forall k :: 0 <= k < |sys.db.checks| ==> PromptOk(sys.db.checks[k], clock))
    && Spaced(sys.db.checks)
    && (!sys.watch.Idle? ==> forall k :: 0 <= k < |sys.db.checks| ==> sys.db.checks[k].prompt.createdAt <= TickNow(sys.watch))
    && (sys.watch.AtStudents? ==> SeenAllChecks(sys.watch.seen.checks, sys.db.checks, sys.watch.pending))
  }

  lemma {:induction false} LastCheckIsLast(checks: seq<Check>, student: Student, day: Day)
    ensures var last := LastCheck(checks, student, day);
            if last == None then forall k :: 0 <= k < |checks| ==> !IsOf(checks[k], student, day)
            else exists k :: && 0 <= k < |checks| && IsOf(checks[k], student, day) && checks[k].prompt == last.value
                             && forall j :: k < j < |checks| ==> !IsOf(checks[j], student, day)
  {
    if checks != [] {
      var front := checks[..|checks| - 1];
      LastCheckIsLast(front, student, day);
      if !IsOf(checks[|checks| - 1], student, day) && LastCheck(front, student, day).Some? {
        var k :| 0 <= k < |front| && IsOf(front[k], student, day) && front[k].prompt == LastCheck(front, student, day).value
                 && forall j :: k < j < |front| ==> !IsOf(front[j], student, day);
        assert checks[k] == front[k];
        forall j | k < j < |checks| ensures !IsOf(checks[j], student, day) {
          if j < |front| { assert checks[j] == front[j]; }
        }
      }
    }
  }

  lemma {:induction false} StillHereIsLast(checks: seq<Check>, student: Student, day: Day)
    ensures var at := StillHereAt(checks, student, day);
            if at == None then forall k :: 0 <= k < |checks| ==> !IsStillHere(checks[k], student, day)
            else exists k :: && 0 <= k < |checks| && IsStillHere(checks[k], student, day) && checks[k].prompt.answeredAt == at
                             && forall j :: k < j < |checks| ==> !IsStillHere(checks[j], student, day)
  {
    if checks != [] {
      var front := checks[..|checks| - 1];
      StillHereIsLast(front, student, day);
      if !IsStillHere(checks[|checks| - 1], student, day) && StillHereAt(front, student, day).Some? {
        var k :| 0 <= k < |front| && IsStillHere(front[k], student, day)
                 && front[k].prompt.answeredAt == StillHereAt(front, student, day)
                 && forall j :: k < j < |front| ==> !IsStillHere(front[j], student, day);
        assert checks[k] == front[k];
        forall j | k < j < |checks| ensures !IsStillHere(checks[j], student, day) {
          if j < |front| { assert checks[j] == front[j]; }
        }
      }
    }
  }

  /** Because prompts never overlap, the last "still here" by creation is also the latest by answer. */
  lemma StillHereIsLatest(checks: seq<Check>, student: Student, day: Day, k: nat, clock: int)
    requires forall i :: 0 <= i < |checks| ==> PromptOk(checks[i], clock)
    requires Spaced(checks) && k < |checks| && IsStillHere(checks[k], student, day)
    ensures var at := StillHereAt(checks, student, day);
            at.Some? && checks[k].prompt.answeredAt.value <= at.value
  {
  }

  // What the watch decides when it prompts, or picks up, from the newest prompt it read.
  lemma PromptAgain(sys: Sys, clock: int, k: nat, cfg: Config)
    requires sys.watch.AtStudents? && sys.watch.pending != [] && PromptsOk(sys, clock)
    requires k < |sys.db.checks|
    requires IsOf(sys.db.checks[k], sys.watch.pending[0].student, SchoolDay(sys.watch.tick.now, cfg.zone))
    requires ActionAt(sys, cfg) != Wait
    ensures var w := sys.watch;
            var since := AbsentSince(EvidenceOf(w.seen, w.pending[0], UnhealthyAtFor(sys.mem, w.center), w.tick.now, cfg));
            var c := sys.db.checks[k].prompt;
            && (c.answeredAt.Some? || c.expiresAt <= w.tick.now)
            && (ActionAt(sys, cfg) == AskTeacher ==>
                  && c.createdAt + PROMPT_EVERY_MS <= w.tick.now
                  && (c.createdAt > since ==> c.expiresAt + PROMPT_EVERY_MS <= w.tick.now))
  {
    hide EvidenceOf, AbsentSince;
    var w := sys.watch;
    var who, day, seen, checks := w.pending[0].student, SchoolDay(w.tick.now, cfg.zone), w.seen.checks, sys.db.checks;
    assert w.pending[0] in w.pending;
    assert |seen| <= k ==> NoneFor(w.pending, checks[k].student);
    assert SameCheck(seen[k], checks[k]) && IsOf(seen[k], who, day);
    LastCheckIsLast(seen, who, day);
    var last :| 0 <= last < |seen| && IsOf(seen[last], who, day) && seen[last].prompt == LastCheck(seen, who, day).value
                && forall j :: last < j < |seen| ==> !IsOf(seen[j], who, day);
    assert SameCheck(seen[last], checks[last]) && IsOf(checks[last], who, day) && k <= last;
    assert PromptOk(checks[k], clock) && PromptOk(checks[last], clock);
    if k < last {
      assert checks[k].prompt.createdAt + PROMPT_EVERY_MS <= checks[last].prompt.createdAt;
    }
  }

  lemma StepKeepsPrompts(sys: Sys, e: Stamped, clock: int, cfg: Config)
    requires WatchOk(sys) && PromptsOk(sys, clock) && ClocksAgree(sys, clock) && 0 <= clock <= e.at
    requires sys.watch.AtStudents? ==> DistinctStudents(sys.watch.pending)
    ensures PromptsOk(Step(sys, e, cfg), e.at)
  {
    hide Effect, ActionAt;
    var sys' := Step(sys, e, cfg);
    var checks, checks' := sys.db.checks, sys'.db.checks;
    StepChecks(sys, e, cfg);
    StepMoves(sys, e, cfg);
    StepWatch(sys, e, cfg);
    forall k | 0 <= k < |checks| ensures PromptOk(checks'[k], e.at) && SameCheck(checks[k], checks'[k]) {
      assert CheckStep(sys, e, k, checks[k], checks'[k], cfg) && PromptOk(checks[k], clock);
    }
    if Prompts(sys, e.event, cfg) {
      var who := sys.watch.pending[0].student;
      forall i | 0 <= i < |checks| && IsOf(checks'[i], who, SchoolDay(sys.watch.tick.now, cfg.zone))
        ensures checks'[i].prompt.createdAt + PROMPT_EVERY_MS <= sys.watch.tick.now
      {
        assert SameCheck(checks[i], checks'[i]);
        PromptAgain(sys, clock, i, cfg);
      }
    }
    assert Spaced(checks') by {
      forall i, j | 0 <= i < j < |checks'| && IsOf(checks'[j], checks'[i].student, checks'[i].date)
        ensures checks'[i].prompt.createdAt + PROMPT_EVERY_MS <= checks'[j].prompt.createdAt
      {
        assert SameCheck(checks[i], checks'[i]);
        if j < |checks| {
          assert SameCheck(checks[j], checks'[j]) && IsOf(checks[j], checks[i].student, checks[i].date);
        }
      }
    }
    if sys'.watch.AtStudents? && sys.watch.AtStudents? && e.event.WatchGoesOn? && sys.watch.pending != [] {
      assert SeenAllChecks(sys'.watch.seen.checks, checks', sys'.watch.pending) by {
        PromptingMovesOn(sys, e, cfg);
        forall k | |sys.watch.seen.checks| <= k < |checks'| ensures NoneFor(sys'.watch.pending, checks'[k].student) {
          if k < |checks| { assert NoneFor(sys.watch.pending, checks[k].student); }
        }
      }
    }
  }

  lemma PromptingMovesOn(sys: Sys, e: Stamped, cfg: Config)
    requires WatchOk(sys) && sys.watch.AtStudents? && e.event.WatchGoesOn? && sys.watch.pending != []
    requires DistinctStudents(sys.watch.pending)
    ensures var w' := Step(sys, e, cfg).watch;
            w' == sys.watch.(pending := sys.watch.pending[1..]) && NoneFor(w'.pending, sys.watch.pending[0].student)
  {
  }

  /** In every reachable state: prompts last their time, are answered while open, and those of one student
      on one day start at least a minute apart, so they never overlap. */
  lemma {:induction false} PromptsStayDisciplined(run: Run, n: nat, cfg: Config)
    requires Timely(run) && n <= |run.events|
    ensures PromptsOk(StateAt(run, n, cfg), Clock(run, n))
    ensures var checks := StateAt(run, n, cfg).db.checks;
            forall i, j :: 0 <= i < j < |checks| && IsOf(checks[j], checks[i].student, checks[i].date) ==>
              && checks[i].prompt.createdAt + PROMPT_EVERY_MS <= checks[j].prompt.createdAt
              && checks[i].prompt.expiresAt <= checks[j].prompt.createdAt
  {
    hide Step;
    if n > 0 {
      PromptsStayDisciplined(run, n - 1, cfg);
      ClocksAlwaysAgree(run, n - 1, cfg);
      WatchAlwaysKnows(run, n - 1, cfg);
      StepKeepsPrompts(StateAt(run, n - 1, cfg), run.events[n - 1], Clock(run, n - 1), cfg);
    }
    var checks := StateAt(run, n, cfg).db.checks;
    forall i | 0 <= i < |checks|
      ensures checks[i].prompt.expiresAt == checks[i].prompt.createdAt + PROMPT_TTL_MS
    {
      assert PromptOk(checks[i], Clock(run, n));
    }
  }
}

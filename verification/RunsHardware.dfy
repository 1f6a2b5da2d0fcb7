/** When the watch's eyes are open: what it makes of the gateway's and the cameras' signs of life. */
module RunsHardware {
  import opened Options
  import opened Signals
  import opened Attendance
  import opened Runs
  import opened RunsWatch

  // ---- signs of life, as events ----------------------------------------------------

  ghost predicate GatewayHeardAfter(run: Run, n: nat, t: int)
    requires n <= |run.events|
  {
    exists i: nat :: i < n && run.events[i].event.GatewayHeard? && run.events[i].at > t
  }

  ghost predicate NoRestart(run: Run, i: nat, n: nat)
    requires n <= |run.events|
  {
    forall k :: i < k < n ==> !run.events[k].event.ProcessRestarts?
  }

  // A frame of this center's camera at or after `t`, which the process still remembers.
  ghost predicate FrameSince(run: Run, n: nat, center: Center, t: int)
    requires n <= |run.events|
  {
    exists i: nat :: i < n && run.events[i].event == CameraFrame(center) && run.events[i].at >= t && NoRestart(run, i, n)
  }

  // Both have been heard from in the last half minute before `now`.
  ghost predicate EyesOpen(run: Run, n: nat, center: Center, now: int)
    requires n <= |run.events|
  {
    GatewayHeardAfter(run, n, now - 30_000) && FrameSince(run, n, center, now - 30_000)
  }

  lemma StepGateway(sys: Sys, e: Stamped, cfg: Config)
    requires WatchOk(sys)
    ensures Step(sys, e, cfg).db.gatewaySeenAt == if e.event.GatewayHeard? then Some(e.at) else sys.db.gatewaySeenAt
  {
    hide UpsertAll, ToWrite, MergeSignal, Verified, ActionFor, SeenAgain, LegalOrder, HardwareUp, EnsureAutoSession;
    hide FindActive, OfCenter, SessionsByCenter, TypesOpen;
    if e.event.SaveStatuses? {
      UpsertAllKeepsTheRest(sys.db, ToWrite(sys.db.records, e.event.entries), e.at, cfg);
    }
  }

  lemma {:induction false} GatewayIsRemembered(run: Run, n: nat, t: int, cfg: Config)
    requires Timely(run) && n <= |run.events|
    ensures var seen := StateAt(run, n, cfg).db.gatewaySeenAt;
            && (seen.Some? && seen.value > t <==> GatewayHeardAfter(run, n, t))
            && (seen.Some? ==> seen.value <= Clock(run, n))
  {
    hide Step;
    if n == 0 {
      NothingHeardYet(run, cfg);
    } else {
      GatewayIsRemembered(run, n - 1, t, cfg);
      StepGateway(StateAt(run, n - 1, cfg), run.events[n - 1], cfg);
      assert Clock(run, n - 1) <= run.events[n - 1].at;
    }
  }

  lemma NothingHeardYet(run: Run, cfg: Config)
    ensures StateAt(run, 0, cfg).db.gatewaySeenAt == None && StateAt(run, 0, cfg).mem.lastFrameAt == map[]
  {
  }

  lemma {:induction false} FramesAreRemembered(run: Run, n: nat, center: Center, t: int, cfg: Config)
    requires Timely(run) && n <= |run.events|
    ensures var last := StateAt(run, n, cfg).mem.lastFrameAt;
            && (center in last && last[center] >= t <==> FrameSince(run, n, center, t))
            && (center in last ==> last[center] <= Clock(run, n))
  {
    hide Step;
    if n == 0 {
      NothingHeardYet(run, cfg);
    } else {
      FramesAreRemembered(run, n - 1, center, t, cfg);
      StepMemory(StateAt(run, n - 1, cfg), run.events[n - 1], cfg);
      assert Clock(run, n - 1) <= run.events[n - 1].at;
      FrameStep(run, n, center, t);
    }
  }

  lemma FrameStep(run: Run, n: nat, center: Center, t: int)
    requires 0 < n <= |run.events|
    ensures FrameSince(run, n, center, t)
       <==> || (run.events[n - 1].event == CameraFrame(center) && run.events[n - 1].at >= t)
            || (FrameSince(run, n - 1, center, t) && !run.events[n - 1].event.ProcessRestarts?)
  {
    if i: nat :| i < n - 1 && run.events[i].event == CameraFrame(center) && run.events[i].at >= t && NoRestart(run, i, n - 1) {
      assert !run.events[n - 1].event.ProcessRestarts? ==> NoRestart(run, i, n);
    }
    if i: nat :| i < n && run.events[i].event == CameraFrame(center) && run.events[i].at >= t && NoRestart(run, i, n) {
      assert i < n - 1 ==> NoRestart(run, i, n - 1);
    }
    assert NoRestart(run, n - 1, n);
  }

  lemma HardwareUpExactly(run: Run, n: nat, center: Center, session: Option<nat>, now: int, cfg: Config)
    requires Timely(run) && n <= |run.events|
    ensures HardwareUp(StateAt(run, n, cfg), center, session, now) <==> session.Some? && EyesOpen(run, n, center, now)
  {
    hide StateAt;
    GatewayIsRemembered(run, n, now - 30_000, cfg);
    FramesAreRemembered(run, n, center, now - 30_000, cfg);
  }

  ghost predicate LooksNow(run: Run, n: nat, cfg: Config)
    requires n < |run.events|
  {
    run.events[n].event.WatchGoesOn? && StateAt(run, n, cfg).watch.AtEyes?
  }

  /** The watch goes on to read a center's tables if and only if it holds a session for it, the gateway was
      heard within 30 s and the center's camera, since the last restart, within 30 s of the run's time.
      Otherwise it remembers the outage at that time and moves on. */
  lemma LooksOnlyWithOpenEyes(run: Run, n: nat, cfg: Config)
    requires Timely(run) && n < |run.events| && LooksNow(run, n, cfg)
    ensures var w, after := StateAt(run, n, cfg).watch, StateAt(run, n + 1, cfg);
            if w.session.Some? && EyesOpen(run, n, w.center, w.tick.now)
            then after.watch == AtRead(w.tick, w.center) && after.mem == StateAt(run, n, cfg).mem
            else && !after.watch.AtRead? && w.tick.todo != [] && after.watch == AtCenter(w.tick.(todo := w.tick.todo[1..]))
                 && after.mem.unhealthyAt == StateAt(run, n, cfg).mem.unhealthyAt[w.center := w.tick.now]
  {
    hide StateAt, HardwareUp, EyesOpen;
    NextState(run, n, cfg);
    var w := StateAt(run, n, cfg).watch;
    HardwareUpExactly(run, n, w.center, w.session, w.tick.now, cfg);
  }

  // Step `k` finds this center's session and its eyes open, in this very run of the watch.
  ghost predicate LookedWithOpenEyes(run: Run, k: nat, tick: Tick, center: Center, cfg: Config)
    requires k < |run.events|
  {
    var w := StateAt(run, k, cfg).watch;
    && LooksNow(run, k, cfg) && w.tick == tick && w.center == center
    && w.session.Some? && EyesOpen(run, k, center, tick.now)
  }

  /** Whenever the watch reads or acts on a center's tables, its eyes were open when it came there. */
  lemma {:induction false} ReadsWithOpenEyes(run: Run, n: nat, cfg: Config)
    requires Timely(run) && n <= |run.events|
    requires var w := StateAt(run, n, cfg).watch; w.AtRead? || w.AtStudents?
    ensures var w := StateAt(run, n, cfg).watch;
            exists k: nat :: k < (if w.AtRead? then n else w.seen.readAt) && k < n && LookedWithOpenEyes(run, k, w.tick, w.center, cfg)
  {
    hide StateAt, EyesOpen, Step;
    if n > 0 {
      var sys, e := StateAt(run, n - 1, cfg), run.events[n - 1];
      NextState(run, n - 1, cfg);
      StepMoves(sys, e, cfg);
      if sys.watch.AtRead? || sys.watch.AtStudents? {
        ReadsWithOpenEyes(run, n - 1, cfg);
      } else {
        LooksOnlyWithOpenEyes(run, n - 1, cfg);
        assert LookedWithOpenEyes(run, n - 1, sys.watch.tick, sys.watch.center, cfg);
      }
    } else {
      NothingKnownYet(run, cfg);
    }
  }

  // ---- outages --------------------------------------------------------------------------

  // The watch came to this center without a session or with its eyes closed, or the process restarted.
  ghost predicate HardwareDown(run: Run, i: nat, center: Center, cfg: Config)
    requires i < |run.events|
  {
    var w := StateAt(run, i, cfg).watch;
    || run.events[i].event.ProcessRestarts?
    || (LooksNow(run, i, cfg) && w.center == center && !(w.session.Some? && EyesOpen(run, i, center, w.tick.now)))
  }

  ghost function DownAt(run: Run, i: nat, cfg: Config): int
    requires i < |run.events|
  {
    if LooksNow(run, i, cfg) then StateAt(run, i, cfg).watch.tick.now else run.events[i].at
  }

  lemma DownIsFound(run: Run, i: nat, cfg: Config)
    requires Timely(run) && i < |run.events|
    ensures FindsDown(StateAt(run, i, cfg), run.events[i].event)
       <==> LooksNow(run, i, cfg) && HardwareDown(run, i, StateAt(run, i, cfg).watch.center, cfg)
  {
    hide StateAt, HardwareUp, EyesOpen;
    if LooksNow(run, i, cfg) {
      var w := StateAt(run, i, cfg).watch;
      HardwareUpExactly(run, i, w.center, w.session, w.tick.now, cfg);
    }
  }

  lemma {:induction false} OutagesAreKept(run: Run, i: nat, n: nat, center: Center, cfg: Config)
    requires Timely(run) && i < n <= |run.events| && HardwareDown(run, i, center, cfg)
    ensures DownAt(run, i, cfg) <= UnhealthyAtFor(StateAt(run, n, cfg).mem, center)
    decreases n
  {
    hide Step, EyesOpen, HardwareUp;
    var sys, e := StateAt(run, n - 1, cfg), run.events[n - 1];
    StepMemory(sys, e, cfg);
    ClocksAlwaysAgree(run, n - 1, cfg);
    DownIsFound(run, n - 1, cfg);
    if i < n - 1 {
      OutagesAreKept(run, i, n - 1, center, cfg);
      assert UnhealthyAtFor(sys.mem, center) <= Clock(run, n - 1) <= e.at;
    }
  }
}

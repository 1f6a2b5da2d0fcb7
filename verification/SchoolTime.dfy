/** School-local day and minute arithmetic. Instants are whole milliseconds since
    the epoch; the school's zone is a fixed number of whole minutes ahead of UTC. */
module SchoolTime {
  import opened Options

  const MINUTE_MS := 60_000
  const DAY_MS := 86_400_000
  const MINUTES_PER_DAY := 1440

  // "YYYY-MM-DD" in the school's zone, as a day number; `day * DAY_MS` is that key's UTC midnight.
  function SchoolDay(now: int, zone: int): int {
    (now + zone * MINUTE_MS) / DAY_MS
  }

  function SchoolMinutesOfDay(now: int, zone: int): (m: int)
    ensures 0 <= m < MINUTES_PER_DAY
  {
    (now + zone * MINUTE_MS) % DAY_MS / MINUTE_MS
  }

  // Guesses UTC midnight of the key, then steps back or forward to local midnight.
  function SchoolDayStart(day: int, zone: int): int {
    var guess := day * DAY_MS;
    var minutes := SchoolMinutesOfDay(guess, zone);
    if SchoolDay(guess, zone) == day
    then guess - minutes * MINUTE_MS
    else guess + (MINUTES_PER_DAY - minutes) * MINUTE_MS
  }

  // The instant at a given local millisecond of the day, relative to `now`.
  function InstantAtMs(now: int, nowMinutes: int, msOfDay: int): int {
    now / MINUTE_MS * MINUTE_MS + (msOfDay - nowMinutes * MINUTE_MS)
  }

  function InstantAtMinute(now: int, nowMinutes: int, minuteOfDay: int): int {
    InstantAtMs(now, nowMinutes, minuteOfDay * MINUTE_MS)
  }

  /** `start` is the first instant of local day `day`: that day begins exactly there. */
  ghost predicate BeginsDay(start: int, day: int, zone: int) {
    && SchoolDay(start, zone) == day
    && SchoolMinutesOfDay(start, zone) == 0
    && SchoolDay(start - 1, zone) == day - 1
  }

  lemma DayStartUnique(start: int, day: int, zone: int)
    ensures BeginsDay(start, day, zone) <==> start == day * DAY_MS - zone * MINUTE_MS
  {
  }

  /** The two branches are right for every zone that exists (and for no offset of more than a day). */
  lemma SchoolDayStartExact(day: int, zone: int)
    ensures BeginsDay(SchoolDayStart(day, zone), day, zone) <==> -MINUTES_PER_DAY <= zone < MINUTES_PER_DAY
  {
    var guess := day * DAY_MS;
    DayStartUnique(SchoolDayStart(day, zone), day, zone);
    var q, r := zone / MINUTES_PER_DAY, zone % MINUTES_PER_DAY;
    assert zone == q * MINUTES_PER_DAY + r;
    assert guess + zone * MINUTE_MS == (day + q) * DAY_MS + r * MINUTE_MS;
    assert SchoolDay(guess, zone) == day + q;
    assert SchoolMinutesOfDay(guess, zone) == r;
  }

  lemma FloorToMinute(now: int, zone: int)
    ensures now / MINUTE_MS * MINUTE_MS
         == SchoolDay(now, zone) * DAY_MS - zone * MINUTE_MS + SchoolMinutesOfDay(now, zone) * MINUTE_MS
  {
    var local := now + zone * MINUTE_MS;
    assert local / MINUTE_MS == now / MINUTE_MS + zone;
    var day, rest := local / DAY_MS, local % DAY_MS;
    assert local == day * DAY_MS + rest;
    assert local / MINUTE_MS == day * MINUTES_PER_DAY + rest / MINUTE_MS;
  }

  /** `instantAtMinute` is anchored to the local midnight of `now`, not to `now`: every instant of
      one local day names the same moment, which is that local day's given minute. */
  lemma InstantAtMinuteExact(now: int, zone: int, minuteOfDay: int)
    requires -MINUTES_PER_DAY <= zone < MINUTES_PER_DAY
    ensures var at := InstantAtMinute(now, SchoolMinutesOfDay(now, zone), minuteOfDay);
            && at == SchoolDayStart(SchoolDay(now, zone), zone) + minuteOfDay * MINUTE_MS
            && (0 <= minuteOfDay < MINUTES_PER_DAY ==>
                  SchoolDay(at, zone) == SchoolDay(now, zone) && SchoolMinutesOfDay(at, zone) == minuteOfDay)
  {
    var day := SchoolDay(now, zone);
    FloorToMinute(now, zone);
    SchoolDayStartExact(day, zone);
    DayStartUnique(SchoolDayStart(day, zone), day, zone);
    var at := InstantAtMinute(now, SchoolMinutesOfDay(now, zone), minuteOfDay);
    assert at + zone * MINUTE_MS == day * DAY_MS + minuteOfDay * MINUTE_MS;
  }

  // ---- pickup windows --------------------------------------------------------

  datatype SessionType = Morning | Afternoon

  datatype PickupConfig = PickupConfig(morningStartMin: int, afternoonStartMin: int, windowMs: int, absentMs: int)

  function StartMin(s: SessionType, cfg: PickupConfig): int {
    match s case Morning => cfg.morningStartMin case Afternoon => cfg.afternoonStartMin
  }

  // The window's closing time of day. The program keeps it in (possibly fractional) minutes.
  function EndMs(s: SessionType, cfg: PickupConfig): int {
    StartMin(s, cfg) * MINUTE_MS + cfg.windowMs
  }

  predicate InWindow(s: SessionType, nowMinutes: int, cfg: PickupConfig) {
    StartMin(s, cfg) <= nowMinutes && nowMinutes * MINUTE_MS < EndMs(s, cfg)
  }

  function SessionsInWindow(nowMinutes: int, cfg: PickupConfig): seq<SessionType> {
    (if InWindow(Morning, nowMinutes, cfg) then [Morning] else [])
    + (if InWindow(Afternoon, nowMinutes, cfg) then [Afternoon] else [])
  }

  // `windowStart` of a run: when the earliest of the open windows began.
  function EarliestStartMin(types: seq<SessionType>, cfg: PickupConfig): int
    requires types != []
  {
    var first := StartMin(types[0], cfg);
    if |types| == 1 then first
    else var rest := EarliestStartMin(types[1..], cfg); if rest < first then rest else first
  }

  function LatestEndMs(types: seq<SessionType>, cfg: PickupConfig): int
    requires types != []
  {
    var first := EndMs(types[0], cfg);
    if |types| == 1 then first
    else var rest := LatestEndMs(types[1..], cfg); if rest > first then rest else first
  }

  // When the monitor says tracking ends; None when no window is open.
  function PickupWindowStatus(now: int, zone: int, cfg: PickupConfig): (endsAt: Option<int>) {
    var nowMinutes := SchoolMinutesOfDay(now, zone);
    var open := SessionsInWindow(nowMinutes, cfg);
    if open == [] then None else Some(InstantAtMs(now, nowMinutes, LatestEndMs(open, cfg)))
  }

  /** `now` lies between the computed start and end instants of its own day's window. */
  ghost predicate BetweenInstants(s: SessionType, now: int, zone: int, cfg: PickupConfig) {
    var nowMinutes := SchoolMinutesOfDay(now, zone);
    InstantAtMinute(now, nowMinutes, StartMin(s, cfg)) <= now < InstantAtMs(now, nowMinutes, EndMs(s, cfg))
  }

  /** The minute comparison and the instants agree, unless the window ends inside a minute and `now`
      is in what is left of that minute: then the window is still taken to be open. */
  lemma InWindowExact(s: SessionType, now: int, zone: int, cfg: PickupConfig)
    ensures BetweenInstants(s, now, zone, cfg) ==> InWindow(s, SchoolMinutesOfDay(now, zone), cfg)
    ensures cfg.windowMs % MINUTE_MS == 0 ==>
              (InWindow(s, SchoolMinutesOfDay(now, zone), cfg) <==> BetweenInstants(s, now, zone, cfg))
  {
    var floor := now / MINUTE_MS * MINUTE_MS;
    assert floor <= now < floor + MINUTE_MS;
    if cfg.windowMs % MINUTE_MS == 0 {
      var m := cfg.windowMs / MINUTE_MS;
      assert cfg.windowMs == m * MINUTE_MS;
    }
  }

  /** ... and for every longer or shorter window some instant of some minute shows the difference. */
  lemma InWindowNeedsWholeMinutes(s: SessionType, zone: int, cfg: PickupConfig)
    requires cfg.windowMs > 0
    requires 0 <= StartMin(s, cfg) && EndMs(s, cfg) <= DAY_MS
    ensures cfg.windowMs % MINUTE_MS == 0 <==>
              forall now: int :: InWindow(s, SchoolMinutesOfDay(now, zone), cfg) <==> BetweenInstants(s, now, zone, cfg)
  {
    if cfg.windowMs % MINUTE_MS == 0 {
      forall now: int
        ensures InWindow(s, SchoolMinutesOfDay(now, zone), cfg) <==> BetweenInstants(s, now, zone, cfg)
      {
        InWindowExact(s, now, zone, cfg);
      }
    } else {
      // The last millisecond of the minute in which the window ends.
      var m := EndMs(s, cfg) / MINUTE_MS;
      var now := m * MINUTE_MS + MINUTE_MS - 1 - zone * MINUTE_MS;
      assert EndMs(s, cfg) % MINUTE_MS != 0;
      assert (now + zone * MINUTE_MS) % DAY_MS == m * MINUTE_MS + MINUTE_MS - 1;
      assert SchoolMinutesOfDay(now, zone) == m;
      assert InWindow(s, m, cfg);
      assert now / MINUTE_MS == m - zone;
      assert InWindow(s, SchoolMinutesOfDay(now, zone), cfg) && !BetweenInstants(s, now, zone, cfg);
    }
  }

  /** The monitor reports an end exactly while some window is open, and the end it reports is the
      latest closing instant among the open windows. */
  lemma PickupWindowStatusExact(now: int, zone: int, cfg: PickupConfig)
    ensures var nowMinutes := SchoolMinutesOfDay(now, zone);
            var status := PickupWindowStatus(now, zone, cfg);
            && (status.Some? <==> exists s :: InWindow(s, nowMinutes, cfg))
            && (status.Some? ==>
                  && (exists s :: InWindow(s, nowMinutes, cfg) && status.value == InstantAtMs(now, nowMinutes, EndMs(s, cfg)))
                  && (forall s :: InWindow(s, nowMinutes, cfg) ==> InstantAtMs(now, nowMinutes, EndMs(s, cfg)) <= status.value))
  {
    var nowMinutes := SchoolMinutesOfDay(now, zone);
    assert forall s: SessionType :: InWindow(s, nowMinutes, cfg) ==> s == Morning || s == Afternoon;
    if InWindow(Morning, nowMinutes, cfg) && InWindow(Afternoon, nowMinutes, cfg) {
      var open := SessionsInWindow(nowMinutes, cfg);
      assert open == [Morning, Afternoon] && open[1..] == [Afternoon];
      assert LatestEndMs([Afternoon], cfg) == EndMs(Afternoon, cfg);
      assert LatestEndMs(open, cfg) in {EndMs(Morning, cfg), EndMs(Afternoon, cfg)};
    }
  }
}

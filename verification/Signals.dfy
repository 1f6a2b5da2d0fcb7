/** Folding camera and tag readings into one smoothed row per student, session and kind,
    and deciding from two such rows whether a student is demonstrably present. */
module Signals {
  import opened Options

  datatype Kind = Face | Ble

  datatype Signal = Signal(score: real, hits: int, lastSeenAt: int)

  datatype VerifyConfig = VerifyConfig(
    faceMaxDistance: real, faceMinMargin: real, bleMinRssi: real, windowMs: int, minHits: int)

  const SMOOTHING := 0.5

  function MergeSignal(prev: Option<Signal>, value: real, now: int, cfg: VerifyConfig): Signal {
    var continuing := prev.Some? && now - prev.value.lastSeenAt <= cfg.windowMs;
    Signal(
      if continuing then SMOOTHING * value + (1.0 - SMOOTHING) * prev.value.score else value,
      if continuing then prev.value.hits + 1 else 1,
      now)
  }

  predicate ScoreInside(kind: Kind, score: real, cfg: VerifyConfig) {
    if kind == Face then score <= cfg.faceMaxDistance else score >= cfg.bleMinRssi
  }

  predicate IsSignalPresent(kind: Kind, signal: Option<Signal>, now: int, cfg: VerifyConfig) {
    && signal.Some?
    && now - signal.value.lastSeenAt <= cfg.windowMs
    && signal.value.hits >= cfg.minHits
    && ScoreInside(kind, signal.value.score, cfg)
  }

  predicate Verified(face: Option<Signal>, ble: Option<Signal>, now: int, cfg: VerifyConfig) {
    IsSignalPresent(Face, face, now, cfg) && IsSignalPresent(Ble, ble, now, cfg)
  }

  // ---- the row against the whole history of readings ---------------------------

  datatype Reading = Reading(value: real, at: int)

  // The signal row after every reading of `history` has been merged in, oldest first.
  function SignalRow(history: seq<Reading>, cfg: VerifyConfig): Option<Signal> {
    if history == [] then None
    else
      var last := history[|history| - 1];
      Some(MergeSignal(SignalRow(history[..|history| - 1], cfg), last.value, last.at, cfg))
  }

  /** The last `n` readings form one unbroken run, and no longer suffix does. */
  ghost predicate IsLatestRun(history: seq<Reading>, n: int, cfg: VerifyConfig) {
    && 1 <= n <= |history|
    && (forall k :: |history| - n < k < |history| ==> history[k].at - history[k - 1].at <= cfg.windowMs)
    && (n < |history| ==> history[|history| - n].at - history[|history| - n - 1].at > cfg.windowMs)
  }

  lemma LatestRunIsUnique(history: seq<Reading>, m: int, n: int, cfg: VerifyConfig)
    requires IsLatestRun(history, m, cfg) && IsLatestRun(history, n, cfg)
    ensures m == n
  {
  }

  function Half(e: nat): (h: real)
    ensures h > 0.0
  {
    if e == 0 then 1.0 else Half(e - 1) / 2.0
  }

  // Weight of the k-th reading of a run of n: halved by every later reading, the first one undiscounted.
  function Weight(n: nat, k: nat): real
    requires k < n
  {
    if k == 0 then Half(n - 1) else Half(n - k)
  }

  function WeightSum(n: nat, m: nat): real
    requires m <= n
  {
    if m == 0 then 0.0 else WeightSum(n, m - 1) + Weight(n, m - 1)
  }

  function WeightedSum(run: seq<Reading>, n: nat, m: nat): real
    requires m <= n && m <= |run|
  {
    if m == 0 then 0.0 else WeightedSum(run, n, m - 1) + Weight(n, m - 1) * run[m - 1].value
  }

  function SmoothedScore(run: seq<Reading>): real {
    WeightedSum(run, |run|, |run|)
  }

  lemma {:induction false} OneMoreReadingHalves(run: seq<Reading>, x: Reading, m: nat)
    requires m <= |run|
    ensures WeightedSum(run + [x], |run| + 1, m) == WeightedSum(run, |run|, m) / 2.0
    ensures WeightSum(|run| + 1, m) == WeightSum(|run|, m) / 2.0
  {
    if m != 0 {
      OneMoreReadingHalves(run, x, m - 1);
      var w, v := Weight(|run|, m - 1), run[m - 1].value;
      assert Weight(|run| + 1, m - 1) == w / 2.0;
      assert (w / 2.0) * v == (w * v) / 2.0;
    }
  }

  lemma SmoothedScoreStep(run: seq<Reading>, x: Reading)
    ensures SmoothedScore([x]) == x.value
    ensures run != [] ==> SmoothedScore(run + [x]) == SMOOTHING * x.value + (1.0 - SMOOTHING) * SmoothedScore(run)
  {
    assert WeightedSum([x], 1, 1) == WeightedSum([x], 1, 0) + Weight(1, 0) * x.value;
    if run != [] {
      OneMoreReadingHalves(run, x, |run|);
      assert Weight(|run| + 1, |run|) == Half(1) == Half(0) / 2.0;
    }
  }

  lemma {:induction false} WeightsSumToOne(n: nat)
    requires n > 0
    ensures WeightSum(n, n) == 1.0
  {
    if n == 1 {
      assert WeightSum(1, 1) == WeightSum(1, 0) + Weight(1, 0);
    } else {
      WeightsSumToOne(n - 1);
      var run := seq(n - 1, _ => Reading(0.0, 0));
      OneMoreReadingHalves(run, Reading(0.0, 0), n - 1);
      assert Weight(n, n - 1) == Half(1) == Half(0) / 2.0;
    }
  }

  /** A smoothed score never leaves the interval its run's readings span. */
  lemma {:induction false} SmoothedScoreIsConvex(run: seq<Reading>, lo: real, hi: real)
    requires run != []
    requires forall k :: 0 <= k < |run| ==> lo <= run[k].value <= hi
    ensures lo <= SmoothedScore(run) <= hi
  {
    var shorter, last := run[..|run| - 1], run[|run| - 1];
    SmoothedScoreStep(shorter, last);
    assert run == shorter + [last];
    if shorter != [] {
      SmoothedScoreIsConvex(shorter, lo, hi);
    }
  }

  ghost predicate RowIsExact(history: seq<Reading>, cfg: VerifyConfig)
    requires history != []
  {
    var row := SignalRow(history, cfg);
    && row.Some?
    && IsLatestRun(history, row.value.hits, cfg)
    && row.value.lastSeenAt == history[|history| - 1].at
    && row.value.score == SmoothedScore(history[|history| - row.value.hits..])
  }

  /** The incrementally kept row is a function of the full history: `hits` is the length of the latest
      unbroken run, `lastSeenAt` the last reading's time, `score` that run's weighted average. */
  lemma {:induction false} SignalRowExact(history: seq<Reading>, cfg: VerifyConfig)
    requires history != []
    ensures RowIsExact(history, cfg)
  {
    var earlier, last := history[..|history| - 1], history[|history| - 1];
    if earlier != [] {
      SignalRowExact(earlier, cfg);
    }
    NextRow(earlier, last, cfg);
    assert history == earlier + [last];
  }

  lemma NextRow(earlier: seq<Reading>, last: Reading, cfg: VerifyConfig)
    requires earlier != [] ==> RowIsExact(earlier, cfg)
    ensures RowIsExact(earlier + [last], cfg)
  {
    hide SmoothedScore;
    var history := earlier + [last];
    assert history[..|history| - 1] == earlier;
    SmoothedScoreStep([], last);
    if earlier == [] || last.at - earlier[|earlier| - 1].at > cfg.windowMs {
      assert history[|history| - 1..] == [last];
    } else {
      var hits := SignalRow(earlier, cfg).value.hits;
      var run := earlier[|earlier| - hits..];
      SmoothedScoreStep(run, last);
      assert history[|history| - (hits + 1)..] == run + [last];
    }
  }

  /** What a history must look like for its signal to be current evidence. */
  ghost predicate IsEvidence(kind: Kind, history: seq<Reading>, now: int, cfg: VerifyConfig) {
    && history != []
    && now - history[|history| - 1].at <= cfg.windowMs
    && exists n {:trigger IsLatestRun(history, n, cfg)} ::
         && IsLatestRun(history, n, cfg)
         && n >= cfg.minHits
         && var score := SmoothedScore(history[|history| - n..]);
            if kind == Face then score <= cfg.faceMaxDistance else cfg.bleMinRssi <= score
  }

  lemma SignalPresentExact(kind: Kind, history: seq<Reading>, now: int, cfg: VerifyConfig)
    ensures IsSignalPresent(kind, SignalRow(history, cfg), now, cfg) <==> IsEvidence(kind, history, now, cfg)
  {
    if history != [] {
      SignalRowExact(history, cfg);
      var hits := SignalRow(history, cfg).value.hits;
      forall n | IsLatestRun(history, n, cfg) ensures n == hits {
        LatestRunIsUnique(history, n, hits, cfg);
      }
    }
  }

  /** "verified" is exactly: both full histories end in long enough, fresh, good enough runs. */
  lemma VerifiedExact(faces: seq<Reading>, tags: seq<Reading>, now: int, cfg: VerifyConfig)
    ensures Verified(SignalRow(faces, cfg), SignalRow(tags, cfg), now, cfg)
       <==> IsEvidence(Face, faces, now, cfg) && IsEvidence(Ble, tags, now, cfg)
  {
    SignalPresentExact(Face, faces, now, cfg);
    SignalPresentExact(Ble, tags, now, cfg);
  }

  /** A tag that counts as near was really near at least once in its current run. */
  lemma NearTagWasReallyNear(tags: seq<Reading>, now: int, cfg: VerifyConfig)
    requires IsSignalPresent(Ble, SignalRow(tags, cfg), now, cfg)
    ensures exists n, k :: IsLatestRun(tags, n, cfg) && |tags| - n <= k < |tags| && tags[k].value >= cfg.bleMinRssi
  {
    SignalRowExact(tags, cfg);
    var n := SignalRow(tags, cfg).value.hits;
    var run := tags[|tags| - n..];
    if forall k :: |tags| - n <= k < |tags| ==> tags[k].value < cfg.bleMinRssi {
      BelowStaysBelow(run, cfg.bleMinRssi);
    }
  }

  lemma {:induction false} BelowStaysBelow(run: seq<Reading>, bound: real)
    requires run != []
    requires forall k :: 0 <= k < |run| ==> run[k].value < bound
    ensures SmoothedScore(run) < bound
  {
    var shorter, last := run[..|run| - 1], run[|run| - 1];
    SmoothedScoreStep(shorter, last);
    assert run == shorter + [last];
    if shorter != [] {
      BelowStaysBelow(shorter, bound);
    }
  }

  /** When every face reading was itself a confident match, the smoothed face test adds nothing:
      a face signal is evidence as soon as its run is long enough and fresh. */
  lemma ConfidentFacesAlwaysPass(faces: seq<Reading>, now: int, cfg: VerifyConfig)
    requires forall k :: 0 <= k < |faces| ==> faces[k].value <= cfg.faceMaxDistance
    ensures IsSignalPresent(Face, SignalRow(faces, cfg), now, cfg)
       <==> && faces != []
            && now - faces[|faces| - 1].at <= cfg.windowMs
            && exists n :: IsLatestRun(faces, n, cfg) && n >= cfg.minHits
  {
    SignalPresentExact(Face, faces, now, cfg);
    if faces != [] {
      SignalRowExact(faces, cfg);
      var hits := SignalRow(faces, cfg).value.hits;
      var run := faces[|faces| - hits..];
      SmoothedScoreIsConvex(run, MinValue(run), cfg.faceMaxDistance);
      forall n | IsLatestRun(faces, n, cfg) ensures n == hits {
        LatestRunIsUnique(faces, n, hits, cfg);
      }
    }
  }

  function MinValue(run: seq<Reading>): (lo: real)
    requires run != []
    ensures forall k :: 0 <= k < |run| ==> lo <= run[k].value
  {
    if |run| == 1 then run[0].value
    else var rest := MinValue(run[1..]);
      assert forall k :: 1 <= k < |run| ==> run[k] == run[1..][k - 1];
      if rest < run[0].value then rest else run[0].value
  }
}

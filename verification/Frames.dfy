/** Which faces of a camera frame may become readings: confident matches of students who appear once. */
module Frames {
  import opened Options
  import opened Signals
  import opened Attendance
  import opened WorkerPool
  import opened BoundedWorkers
  import opened Runs
  import FaceIndex

  datatype FaceMatch = FaceMatch(student: Option<Student>, distance: Option<real>, margin: Option<real>)

  // `margin` is None when only one student is enrolled, so there is nobody to be confused with.
  predicate IsConfidentMatch(face: FaceMatch, cfg: VerifyConfig) {
    && face.student.Some? && face.distance.Some?
    && face.distance.value <= cfg.faceMaxDistance
    && (face.margin.Some? ==> face.margin.value >= cfg.faceMinMargin)
  }

  // What the recognition service reports of a face it has matched.
  function Reported(m: FaceIndex.Match): FaceMatch {
    FaceMatch(if m.student.Some? then Some(m.student.value) else None, m.distance, m.margin)
  }

  // One enrolled student is near enough, and everybody else is further away by at least the margin.
  ghost predicate IsUnambiguous(vision: FaceIndex.Vision, known: FaceIndex.Known, face: FaceIndex.Encoding, cfg: VerifyConfig) {
    exists id :: id in known.ids && StandsOut(vision, known, face, id, cfg)
  }

  ghost predicate StandsOut(vision: FaceIndex.Vision, known: FaceIndex.Known, face: FaceIndex.Encoding, id: FaceIndex.StudentId, cfg: VerifyConfig) {
    && Distance(vision, known, face, id) <= cfg.faceMaxDistance
    && forall other :: other in known.ids && other != id ==>
         Distance(vision, known, face, id) + cfg.faceMinMargin <= Distance(vision, known, face, other)
  }

  ghost function Distance(vision: FaceIndex.Vision, known: FaceIndex.Known, face: FaceIndex.Encoding, id: FaceIndex.StudentId): real {
    var row := FaceIndex.Lookup(known, id);
    if row.Some? then vision.dist(row.value, face) else 0.0
  }

  /** A reported match is confident if and only if, over everybody enrolled, one student is near enough and all
      the others are further away by the margin. */
  lemma ConfidentExactly(vision: FaceIndex.Vision, known: FaceIndex.Known, face: FaceIndex.Encoding, order: seq<nat>, cfg: VerifyConfig)
    requires FaceIndex.KnownOk(known) && FaceIndex.IsArgsort(order, FaceIndex.Distances(vision, known, face))
    ensures IsConfidentMatch(Reported(FaceIndex.MatchFace(vision, known, face, order)), cfg)
       <==> IsUnambiguous(vision, known, face, cfg)
  {
    hide FaceIndex.Lookup;
    if known.ids != [] {
      FaceIndex.MatchIsNearest(vision, known, face, order);
      forall id | id in known.ids ensures FaceIndex.Lookup(known, id).Some? {
        FaceIndex.LookupAt(known, FaceIndex.IndexOf(known.ids, id));
      }
      var m := FaceIndex.MatchFace(vision, known, face, order);
      hide FaceIndex.MatchFace;
      if IsConfidentMatch(Reported(m), cfg) {
        assert StandsOut(vision, known, face, m.student.value, cfg) by { OnlyOneElse(known, m.student.value); }
      }
    }
  }

  lemma OnlyOneElse(known: FaceIndex.Known, id: FaceIndex.StudentId)
    requires FaceIndex.KnownOk(known) && id in known.ids
    ensures |known.ids| == 1 ==> forall other :: other in known.ids ==> other == id
  {
  }

  function CountOf(faces: seq<FaceMatch>, s: Student): nat {
    if faces == [] then 0
    else CountOf(faces[..|faces| - 1], s) + (if faces[|faces| - 1].student == Some(s) then 1 else 0)
  }

  ghost predicate Nowhere(faces: seq<FaceMatch>, s: Student) {
    forall j :: 0 <= j < |faces| ==> faces[j].student != Some(s)
  }

  ghost predicate OnlyAt(faces: seq<FaceMatch>, s: Student, k: nat) {
    && k < |faces| && faces[k].student == Some(s)
    && forall j :: 0 <= j < |faces| && j != k ==> faces[j].student != Some(s)
  }

  lemma {:induction false} CountIsZero(faces: seq<FaceMatch>, s: Student)
    ensures CountOf(faces, s) == 0 <==> Nowhere(faces, s)
  {
    if faces != [] {
      var last := |faces| - 1;
      CountIsZero(faces[..last], s);
      assert forall j :: 0 <= j < last ==> faces[..last][j] == faces[j];
    }
  }

  lemma {:induction false} CountIsOnce(faces: seq<FaceMatch>, s: Student, k: nat)
    requires k < |faces| && faces[k].student == Some(s)
    ensures CountOf(faces, s) == 1 <==> OnlyAt(faces, s, k)
  {
    var last := |faces| - 1;
    assert forall j :: 0 <= j < last ==> faces[..last][j] == faces[j];
    CountIsZero(faces[..last], s);
    if k < last {
      CountIsOnce(faces[..last], s, k);
      assert !Nowhere(faces[..last], s) by { assert faces[..last][k].student == Some(s); }
    }
  }

  // A confident face whose student no other face of the frame was matched to.
  ghost predicate IsTrusted(faces: seq<FaceMatch>, k: nat, cfg: VerifyConfig)
    requires k < |faces|
  {
    && IsConfidentMatch(faces[k], cfg)
    && forall j :: 0 <= j < |faces| && j != k ==> faces[j].student != faces[k].student
  }

  ghost function TrustedFaces(faces: seq<FaceMatch>, n: nat, cfg: VerifyConfig): seq<FaceMatch>
    requires n <= |faces|
  {
    if n == 0 then []
    else TrustedFaces(faces, n - 1, cfg) + (if IsTrusted(faces, n - 1, cfg) then [faces[n - 1]] else [])
  }

  method CountFaces(faces: seq<FaceMatch>) returns (counts: map<Student, nat>)
    ensures forall s :: CountOf(faces, s) == if s in counts then counts[s] else 0
  {
    counts := map[];
    for i := 0 to |faces|
      invariant forall s :: CountOf(faces[..i], s) == if s in counts then counts[s] else 0
    {
      assert faces[..i + 1][..i] == faces[..i];
      if faces[i].student.Some? {
        var s := faces[i].student.value;
        counts := counts[s := (if s in counts then counts[s] else 0) + 1];
      }
    }
    assert faces[..|faces|] == faces;
  }

  lemma Untrusted(faces: seq<FaceMatch>, k: nat, cfg: VerifyConfig)
    requires k < |faces|
    ensures IsTrusted(faces, k, cfg) ==> IsConfidentMatch(faces[k], cfg)
  {
  }

  lemma TrustedByCount(faces: seq<FaceMatch>, k: nat, cfg: VerifyConfig)
    requires k < |faces| && IsConfidentMatch(faces[k], cfg)
    ensures faces[k].student.Some?
    ensures IsTrusted(faces, k, cfg) <==> CountOf(faces, faces[k].student.value) == 1
  {
    CountIsOnce(faces, faces[k].student.value, k);
  }

  /** The candidates of a frame are exactly its trusted faces, in the frame's order. */
  method SelectCandidates(faces: seq<FaceMatch>, cfg: VerifyConfig) returns (candidates: seq<FaceMatch>)
    ensures candidates == TrustedFaces(faces, |faces|, cfg)
  {
    hide IsConfidentMatch, CountOf, IsTrusted;
    var counts := CountFaces(faces);
    candidates := [];
    for i := 0 to |faces|
      invariant candidates == TrustedFaces(faces, i, cfg)
    {
      Untrusted(faces, i, cfg);
      if IsConfidentMatch(faces[i], cfg) {
        TrustedByCount(faces, i, cfg);
        var s := faces[i].student.value;
        if s in counts && counts[s] == 1 {
          candidates := candidates + [faces[i]];
        }
      }
    }
  }

  // Confident faces of different students.
  ghost predicate AreCandidates(candidates: seq<FaceMatch>, cfg: VerifyConfig) {
    && (forall k :: 0 <= k < |candidates| ==> IsConfidentMatch(candidates[k], cfg))
    && (forall j, k :: 0 <= j < k < |candidates| ==> candidates[j].student != candidates[k].student)
  }

  lemma {:induction false} TrustedFacesAreCandidates(faces: seq<FaceMatch>, n: nat, cfg: VerifyConfig)
    requires n <= |faces|
    ensures AreCandidates(TrustedFaces(faces, n, cfg), cfg)
    ensures forall k :: 0 <= k < |TrustedFaces(faces, n, cfg)| ==>
              exists j :: 0 <= j < n && faces[j] == TrustedFaces(faces, n, cfg)[k]
  {
    if n > 0 {
      TrustedFacesAreCandidates(faces, n - 1, cfg);
      var before := TrustedFaces(faces, n - 1, cfg);
      if IsTrusted(faces, n - 1, cfg) {
        forall k | 0 <= k < |before| ensures before[k].student != faces[n - 1].student {
          var j :| 0 <= j < n - 1 && faces[j] == before[k];
        }
      }
    }
  }

  ghost predicate WasTrusted(faces: seq<FaceMatch>, f: FaceMatch, n: nat, cfg: VerifyConfig)
    requires n <= |faces|
  {
    exists j :: 0 <= j < n && IsTrusted(faces, j, cfg) && faces[j] == f
  }

  lemma {:induction false} TrustedFacesExactly(faces: seq<FaceMatch>, n: nat, cfg: VerifyConfig)
    requires n <= |faces|
    ensures forall f :: f in TrustedFaces(faces, n, cfg) <==> WasTrusted(faces, f, n, cfg)
  {
    hide IsTrusted;
    if n > 0 {
      TrustedFacesExactly(faces, n - 1, cfg);
      forall f ensures WasTrusted(faces, f, n, cfg) <==> WasTrusted(faces, f, n - 1, cfg) || (IsTrusted(faces, n - 1, cfg) && faces[n - 1] == f) {}
    }
  }

  // The readings of a frame taken at `now`: one per candidate that is one of the caller's students and
  // whose center has a session running.
  function FrameItems(candidates: seq<FaceMatch>, sessionOf: map<Student, nat>, now: int): seq<Item>
    requires forall k :: 0 <= k < |candidates| ==> candidates[k].student.Some? && candidates[k].distance.Some?
  {
    if candidates == [] then []
    else
      var f, rest := candidates[0], FrameItems(candidates[1..], sessionOf, now);
      if f.student.value in sessionOf
      then [Item(sessionOf[f.student.value], f.student.value, Face, [Reading(f.distance.value, now)])] + rest
      else rest
  }

  /** Every frame may be recorded by the concurrent workers: its items are of different students, each is
      one reading, and that reading is inside the face threshold. */
  lemma {:induction false} FrameItemsAreSafe(candidates: seq<FaceMatch>, sessionOf: map<Student, nat>, now: int,
                                            db: Db, cfg: VerifyConfig)
    requires AreCandidates(candidates, cfg)
    requires forall s :: s in sessionOf ==> sessionOf[s] < |db.sessions|
    ensures var items := FrameItems(candidates, sessionOf, now);
            && ItemsOk(db, items)
            && (forall i :: 0 <= i < |items| ==>
                  && |items[i].readings| == 1 && items[i].readings[0].value <= cfg.faceMaxDistance
                  && exists k :: 0 <= k < |candidates| && candidates[k].student == Some(items[i].student))
  {
    if candidates != [] {
      var rest := candidates[1..];
      FrameItemsAreSafe(rest, sessionOf, now, db, cfg);
      var later := FrameItems(rest, sessionOf, now);
      forall i | 0 <= i < |later| ensures Some(later[i].student) != candidates[0].student {
        var k :| 0 <= k < |rest| && rest[k].student == Some(later[i].student);
        assert candidates[k + 1] == rest[k];
      }
      forall i | 0 <= i < |later| ensures exists k :: 0 <= k < |candidates| && candidates[k].student == Some(later[i].student) {
        var k :| 0 <= k < |rest| && rest[k].student == Some(later[i].student);
        assert candidates[k + 1] == rest[k];
      }
    }
  }

  // The reading a candidate gives, in the session of the student's center.
  ghost function ReadingOf(f: FaceMatch, sessionOf: map<Student, nat>, now: int): Item
    requires f.student.Some? && f.distance.Some? && f.student.value in sessionOf
  {
    Item(sessionOf[f.student.value], f.student.value, Face, [Reading(f.distance.value, now)])
  }

  /** The readings of a frame are those of exactly the candidates whose center has a session running: the distance
      of each face, now. */
  lemma {:induction false} FrameItemsExactly(candidates: seq<FaceMatch>, sessionOf: map<Student, nat>, now: int, it: Item)
    requires forall k :: 0 <= k < |candidates| ==> candidates[k].student.Some? && candidates[k].distance.Some?
    ensures it in FrameItems(candidates, sessionOf, now)
       <==> exists k :: && 0 <= k < |candidates| && candidates[k].student.value in sessionOf
                        && it == ReadingOf(candidates[k], sessionOf, now)
    ensures |FrameItems(candidates, sessionOf, now)| <= |candidates|
  {
    if candidates != [] {
      var rest := candidates[1..];
      FrameItemsExactly(rest, sessionOf, now, it);
      assert forall k :: 0 <= k < |rest| ==> rest[k] == candidates[k + 1];
      if k :| 0 <= k < |candidates| && candidates[k].student.value in sessionOf && it == ReadingOf(candidates[k], sessionOf, now) {
        if k > 0 { assert rest[k - 1] == candidates[k]; }
      }
    }
  }

  // What recording one frame reading alone makes of its student.
  function OutcomeAlone(db: Db, it: Item, cfg: Config): seq<Outcome>
    requires it.session < |db.sessions|
  {
    RecordFirst(SliceOf(db, it), it, |it.readings|, cfg).1
  }

  // `sessionOf`: the caller's students whose center has a session running, as the frame arrives at `now`.
  method ProcessFrame(db: Db, faces: seq<FaceMatch>, sessionOf: map<Student, nat>, now: int, cfg: Config)
    returns (verified: Result<seq<Student>, ()>, rows: Db)
    requires forall s :: s in sessionOf ==> sessionOf[s] < |db.sessions|
    ensures AreCandidates(TrustedFaces(faces, |faces|, cfg.verify), cfg.verify)
    ensures var items := FrameItems(TrustedFaces(faces, |faces|, cfg.verify), sessionOf, now);
            && ItemsOk(db, items)
            && (verified.Ok? ==>
                  && rows == RecordInOrder(db, items, cfg)
                  && forall s :: s in verified.value <==>
                       exists i :: 0 <= i < |items| && items[i].student == s && OutcomeAlone(db, items[i], cfg) == [NewlyVerified])
  {
    hide TrustedFaces, FrameItems, IsConfidentMatch, RecordFirst, SliceOf, RecordInOrder, Framed;
    var candidates := SelectCandidates(faces, cfg.verify);
    TrustedFacesAreCandidates(faces, |faces|, cfg.verify);
    assert forall k :: 0 <= k < |candidates| ==> candidates[k].student.Some? && candidates[k].distance.Some? by {
      CandidatesAreFaces(candidates, cfg.verify);
    }
    var items := FrameItems(candidates, sessionOf, now);
    FrameItemsAreSafe(candidates, sessionOf, now, db, cfg.verify);
    var outcomes, after, _ := MapWithLimit(db, items, SIGNAL_CONCURRENCY, cfg);
    rows := after;
    if outcomes.Err? {
      return Err(()), rows;
    }
    var names: seq<Student> := [];
    for i := 0 to |items|
      invariant forall s :: s in names <==>
                  exists k :: 0 <= k < i && items[k].student == s && OutcomeAlone(db, items[k], cfg) == [NewlyVerified]
    {
      assert outcomes.value[i] == OutcomeAlone(db, items[i], cfg);
      if outcomes.value[i] == [NewlyVerified] {
        names := names + [items[i].student];
      }
    }
    return Ok(names), rows;
  }

  lemma CandidatesAreFaces(candidates: seq<FaceMatch>, cfg: VerifyConfig)
    requires AreCandidates(candidates, cfg)
    ensures forall k :: 0 <= k < |candidates| ==> candidates[k].student.Some? && candidates[k].distance.Some?
  {
  }

  // Every face sighting of the run came from a frame, so it had passed the confident match.
  ghost predicate FacesWereConfident(run: Run, cfg: Config) {
    forall i :: 0 <= i < |run.events| && run.events[i].event.Sighting? && run.events[i].event.kind == Face ==>
      run.events[i].event.value <= cfg.verify.faceMaxDistance
  }

  lemma {:induction false} FaceHistoriesAreConfident(run: Run, n: nat, session: nat, student: Student, cfg: Config)
    requires n <= |run.events| && FacesWereConfident(run, cfg)
    ensures forall r :: r in Readings(run, n, (session, student, Face), cfg) ==> r.value <= cfg.verify.faceMaxDistance
  {
    hide StateAt;
    if n > 0 {
      FaceHistoriesAreConfident(run, n - 1, session, student, cfg);
    }
  }

  /** In runs fed by frames, a face row counts as evidence as soon as its run of readings is long enough
      and fresh: the smoothed distance test can never fail. */
  lemma FaceRowsAlwaysPass(run: Run, n: nat, session: nat, student: Student, now: int, cfg: Config)
    requires n <= |run.events| && FacesWereConfident(run, cfg)
    ensures var history := Readings(run, n, (session, student, Face), cfg);
            IsSignalPresent(Face, SignalAt(StateAt(run, n, cfg).db.signals, (session, student, Face)), now, cfg.verify)
            <==> && history != []
                 && now - history[|history| - 1].at <= cfg.verify.windowMs
                 && exists k :: IsLatestRun(history, k, cfg.verify) && k >= cfg.verify.minHits
  {
    hide StateAt, IsLatestRun, IsSignalPresent;
    FaceHistoriesAreConfident(run, n, session, student, cfg);
    SignalRowsAreTheirHistories(run, n, (session, student, Face), cfg);
    ConfidentFacesAlwaysPass(Readings(run, n, (session, student, Face), cfg), now, cfg.verify);
  }
}

/** Recording many students' readings at once: workers that share one counter each take an item and
    record its readings one after the other, waiting for the database between their steps. Whatever the
    schedule, the rows end up as if one student after the other, or one event after the other, had been
    recorded alone. */
module WorkerPool {
  import opened Options
  import opened Signals
  import opened Attendance

  // One student's readings of one kind, in order, for the running session of their center.
  datatype Item = Item(session: nat, student: Student, kind: Kind, readings: seq<Reading>)

  // Where a worker waits inside one recording: for the row, the write, the other row, the attendance write.
  datatype Phase = Start | HavePrev(prev: Option<Signal>) | Written(next: Signal) | HaveOther(next': Signal, other: Option<Signal>)

  datatype Worker =
    | Ready
    | Busy(item: nat, done: nat, outcomes: seq<Outcome>, phase: Phase)
    | Finished
    | Rejected(stuck: nat)

  datatype Pool = Pool(next: nat, workers: seq<Worker>, results: seq<Option<seq<Outcome>>>, db: Db)

  function InFlight(limit: int, items: nat): nat {
    var wanted := if limit < 1 then 1 else limit;
    if wanted < items then wanted else items
  }

  function StartPool(db: Db, items: seq<Item>, limit: int): Pool {
    Pool(0, seq(InFlight(limit, |items|), _ => Ready), seq(|items|, _ => None), db)
  }

  predicate ItemsOk(db: Db, items: seq<Item>) {
    && (forall i :: 0 <= i < |items| ==> items[i].session < |db.sessions|)
    && (forall i, j :: 0 <= i < j < |items| ==> items[i].student != items[j].student)
  }

  function KeyOf(it: Item): SignalKey {
    (it.session, it.student, it.kind)
  }

  // One step of a recording, up to its next wait.
  function RecordingStep(db: Db, it: Item, done: nat, outcomes: seq<Outcome>, phase: Phase, cfg: Config)
    : (nat, seq<Outcome>, Phase, Db)
    requires it.session < |db.sessions| && done < |it.readings|
  {
    var reading := it.readings[done];
    match phase
    case Start => (done, outcomes, HavePrev(SignalAt(db.signals, KeyOf(it))), db)
    case HavePrev(prev) =>
      var next := MergeSignal(prev, reading.value, reading.at, cfg.verify);
      (done, outcomes, Written(next), db.(signals := db.signals[KeyOf(it) := next]))
    case Written(next) => (done, outcomes, HaveOther(next, SignalAt(db.signals, (it.session, it.student, Other(it.kind)))), db)
    case HaveOther(next, other) =>
      var face := if it.kind == Face then Some(next) else other;
      var ble := if it.kind == Ble then Some(next) else other;
      if !Verified(face, ble, reading.at, cfg.verify) then (done + 1, outcomes + [Pending], Start, db)
      else
        var (db', outcome) :=
          MarkVerified(db, it.session, (it.student, db.sessions[it.session].date), face.value, ble.value, reading.at);
        (done + 1, outcomes + [outcome], Start, db')
  }

  predicate PoolFits(pool: Pool, items: seq<Item>) {
    && ItemsOk(pool.db, items)
    && |pool.results| == |items|
    && pool.next <= |items|
    && forall w :: 0 <= w < |pool.workers| && pool.workers[w].Busy? ==> pool.workers[w].item < |items|
  }

  // Worker `w` runs until it waits again.
  function Turn(pool: Pool, items: seq<Item>, w: nat, cfg: Config): Pool
    requires PoolFits(pool, items) && w < |pool.workers|
  {
    match pool.workers[w]
    case Ready =>
      if pool.next < |items|
      then pool.(next := pool.next + 1, workers := pool.workers[w := Busy(pool.next, 0, [], Start)])
      else pool.(workers := pool.workers[w := Finished])
    case Busy(item, done, outcomes, phase) =>
      if done < |items[item].readings| then
        var (done', outcomes', phase', db') := RecordingStep(pool.db, items[item], done, outcomes, phase, cfg);
        pool.(db := db', workers := pool.workers[w := Busy(item, done', outcomes', phase')])
      else pool.(results := pool.results[item := Some(outcomes)], workers := pool.workers[w := Ready])
    case Finished => pool
    case Rejected(_) => pool
  }

  // The database call worker `w` waits for is rejected: its loop ends, the others go on.
  function Reject(pool: Pool, w: nat): Pool
    requires w < |pool.workers|
  {
    match pool.workers[w]
    case Busy(item, _, _, _) => pool.(workers := pool.workers[w := Rejected(item)])
    case _ => pool
  }

  predicate IsLive(worker: Worker) {
    worker.Ready? || worker.Busy?
  }

  // Every worker has ended and none was rejected.
  predicate Completed(pool: Pool) {
    forall w :: 0 <= w < |pool.workers| ==> pool.workers[w] == Finished
  }

  datatype Move = Goes(worker: nat) | Fails(worker: nat)

  function Play(pool: Pool, items: seq<Item>, moves: seq<Move>, cfg: Config): (after: Pool)
    requires PoolFits(pool, items)
    ensures PoolFits(after, items) && |after.workers| == |pool.workers|
    decreases |moves|
  {
    if moves == [] then pool
    else
      var before := Play(pool, items, moves[..|moves| - 1], cfg);
      var move := moves[|moves| - 1];
      if move.worker >= |before.workers| then before
      else if move.Goes? then Turn(before, items, move.worker, cfg)
      else Reject(before, move.worker)
  }

  // ---- one student's rows ----------------------------------------------------------

  datatype Slice = Slice(own: Option<Signal>, other: Option<Signal>, record: Option<Record>, verification: Option<Verification>)

  function RowKey(db: Db, it: Item): Key
    requires it.session < |db.sessions|
  {
    (it.student, db.sessions[it.session].date)
  }

  function SliceOf(db: Db, it: Item): Slice
    requires it.session < |db.sessions|
  {
    var key := RowKey(db, it);
    Slice(SignalAt(db.signals, KeyOf(it)), SignalAt(db.signals, (it.session, it.student, Other(it.kind))),
          if key in db.records then Some(db.records[key]) else None,
          if key in db.verifications then Some(db.verifications[key]) else None)
  }

  // What a recording does to its student's rows alone.
  function Settle(s: Slice, it: Item, next: Signal, at: int, cfg: Config): (Slice, Outcome) {
    var face := if it.kind == Face then Some(next) else s.other;
    var ble := if it.kind == Ble then Some(next) else s.other;
    if !Verified(face, ble, at, cfg.verify) then (s, Pending)
    else if s.record.Some? && s.record.value.status != Absent then (s, AlreadyRecorded)
    else (s.(record := Some(Record(Present, Some(at), None, false)),
             verification := Some(Verification(it.session, face.value.score, ble.value.score, at))), NewlyVerified)
  }

  function RecordOne(s: Slice, it: Item, r: Reading, cfg: Config): (Slice, Outcome) {
    var next := MergeSignal(s.own, r.value, r.at, cfg.verify);
    Settle(s.(own := Some(next)), it, next, r.at, cfg)
  }

  function RecordFirst(s: Slice, it: Item, n: nat, cfg: Config): (Slice, seq<Outcome>)
    requires n <= |it.readings|
  {
    if n == 0 then (s, [])
    else
      var (before, outcomes) := RecordFirst(s, it, n - 1, cfg);
      var (after, outcome) := RecordOne(before, it, it.readings[n - 1], cfg);
      (after, outcomes + [outcome])
  }

  // ---- nothing but the item's own rows changes ------------------------------------------

  // Of the item's student, only the two signal rows of its session and the record of its day can change.
  ghost predicate OnlyItsRows(db: Db, db': Db, it: Item)
    requires it.session < |db.sessions|
  {
    && db'.sessions == db.sessions && db'.checks == db.checks && db'.gatewaySeenAt == db.gatewaySeenAt
    && (forall k: SignalKey :: k != KeyOf(it) ==> SignalAt(db'.signals, k) == SignalAt(db.signals, k))
    && (forall k: Key :: k != RowKey(db, it) ==> Untouched(db, db', k))
  }

  lemma OthersSee(db: Db, db': Db, it: Item, other: Item)
    requires it.session < |db.sessions| && other.session < |db.sessions| && other.student != it.student
    requires OnlyItsRows(db, db', it)
    ensures SliceOf(db', other) == SliceOf(db, other)
  {
    assert Untouched(db, db', RowKey(db, other));
  }

  // ---- the invariant of every schedule ---------------------------------------------------

  // A worker in the middle of an item: the item's rows are where its recordings have brought them.
  ghost predicate BusyOk(db0: Db, db: Db, it: Item, done: nat, outcomes: seq<Outcome>, phase: Phase, cfg: Config)
    requires it.session < |db0.sessions| && it.session < |db.sessions|
  {
    && done <= |it.readings|
    && (done == |it.readings| ==> phase == Start)
    && var (base, soFar) := RecordFirst(SliceOf(db0, it), it, done, cfg);
       && outcomes == soFar
       && match phase
          case Start => SliceOf(db, it) == base
          case HavePrev(prev) => SliceOf(db, it) == base && prev == base.own
          case Written(next) =>
            done < |it.readings| && SliceOf(db, it) == base.(own := Some(next))
            && next == MergeSignal(base.own, it.readings[done].value, it.readings[done].at, cfg.verify)
          case HaveOther(next, other) =>
            done < |it.readings| && SliceOf(db, it) == base.(own := Some(next)) && other == base.other
            && next == MergeSignal(base.own, it.readings[done].value, it.readings[done].at, cfg.verify)
  }

  ghost predicate WorkerOk(db0: Db, pool: Pool, items: seq<Item>, w: nat, cfg: Config)
    requires PoolFits(pool, items) && ItemsOk(db0, items) && w < |pool.workers|
  {
    match pool.workers[w]
    case Busy(i, done, outcomes, phase) =>
      i < pool.next && pool.results[i] == None && BusyOk(db0, pool.db, items[i], done, outcomes, phase, cfg)
    case Finished => pool.next == |items|
    case Rejected(i) => i < pool.next && pool.results[i] == None
    case Ready => true
  }

  // No two workers ever hold the same item.
  ghost predicate NoSharing(workers: seq<Worker>) {
    forall v, w :: 0 <= v < w < |workers| && HeldBy(workers[v]).Some? ==> HeldBy(workers[v]) != HeldBy(workers[w])
  }

  function HeldBy(worker: Worker): Option<nat> {
    match worker
    case Busy(i, _, _, _) => Some(i)
    case Rejected(i) => Some(i)
    case _ => None
  }

  ghost predicate ItemOk(db0: Db, pool: Pool, items: seq<Item>, i: nat, cfg: Config)
    requires PoolFits(pool, items) && ItemsOk(db0, items) && i < |items|
  {
    var (end, outcomes) := RecordFirst(SliceOf(db0, items[i]), items[i], |items[i].readings|, cfg);
    && (i >= pool.next ==> pool.results[i] == None && SliceOf(pool.db, items[i]) == SliceOf(db0, items[i]))
    && (pool.results[i].Some? ==> pool.results[i] == Some(outcomes) && SliceOf(pool.db, items[i]) == end)
    && (i < pool.next && pool.results[i] == None ==>
          exists w :: 0 <= w < |pool.workers| && HeldBy(pool.workers[w]) == Some(i))
  }

  ghost predicate ItemRow(db: Db, items: seq<Item>, k: Key)
    requires ItemsOk(db, items)
  {
    exists i :: 0 <= i < |items| && RowKey(db, items[i]) == k
  }

  ghost predicate ItemSignal(items: seq<Item>, k: SignalKey) {
    exists i :: 0 <= i < |items| && KeyOf(items[i]) == k
  }

  // Rows that belong to no item stay as they were.
  ghost predicate Framed(db0: Db, db: Db, items: seq<Item>)
    requires ItemsOk(db0, items)
  {
    && db.sessions == db0.sessions && db.checks == db0.checks && db.gatewaySeenAt == db0.gatewaySeenAt
    && (forall k: SignalKey :: !ItemSignal(items, k) ==> SignalAt(db.signals, k) == SignalAt(db0.signals, k))
    && (forall k: Key :: !ItemRow(db0, items, k) ==> Untouched(db0, db, k))
  }

  ghost predicate PoolOk(db0: Db, pool: Pool, items: seq<Item>, cfg: Config) {
    && ItemsOk(db0, items) && PoolFits(pool, items)
    && Framed(db0, pool.db, items)
    && NoSharing(pool.workers)
    && (forall w :: 0 <= w < |pool.workers| ==> WorkerOk(db0, pool, items, w, cfg))
    && (forall i :: 0 <= i < |items| ==> ItemOk(db0, pool, items, i, cfg))
  }

  lemma StartOk(db: Db, items: seq<Item>, limit: int, cfg: Config)
    requires ItemsOk(db, items)
    ensures PoolOk(db, StartPool(db, items, limit), items, cfg)
  {
  }

  lemma LastStepOnlyItsRows(db: Db, it: Item, done: nat, outcomes: seq<Outcome>, next: Signal, other: Option<Signal>, cfg: Config)
    requires it.session < |db.sessions| && done < |it.readings|
    ensures OnlyItsRows(db, RecordingStep(db, it, done, outcomes, HaveOther(next, other), cfg).3, it)
  {
  }

  // The attendance write that ends a recording.
  lemma LastStepOk(db0: Db, db: Db, it: Item, done: nat, outcomes: seq<Outcome>, next: Signal, other: Option<Signal>, cfg: Config)
    requires db.sessions == db0.sessions && it.session < |db.sessions| && done < |it.readings|
    requires BusyOk(db0, db, it, done, outcomes, HaveOther(next, other), cfg)
    ensures var (done', outcomes', phase', db') := RecordingStep(db, it, done, outcomes, HaveOther(next, other), cfg);
            OnlyItsRows(db, db', it) && BusyOk(db0, db', it, done', outcomes', phase', cfg)
  {
    hide MergeSignal, Verified, OnlyItsRows;
    LastStepOnlyItsRows(db, it, done, outcomes, next, other, cfg);
    var (base, soFar) := RecordFirst(SliceOf(db0, it), it, done, cfg);
    assert RecordFirst(SliceOf(db0, it), it, done + 1, cfg).0 == RecordOne(base, it, it.readings[done], cfg).0;
  }

  lemma RecordingStepOk(db0: Db, db: Db, it: Item, done: nat, outcomes: seq<Outcome>, phase: Phase, cfg: Config)
    requires db.sessions == db0.sessions && it.session < |db.sessions| && done < |it.readings|
    requires BusyOk(db0, db, it, done, outcomes, phase, cfg)
    ensures var (done', outcomes', phase', db') := RecordingStep(db, it, done, outcomes, phase, cfg);
            OnlyItsRows(db, db', it) && BusyOk(db0, db', it, done', outcomes', phase', cfg)
  {
    if phase.HaveOther? {
      hide RecordingStep, BusyOk, OnlyItsRows;
      LastStepOk(db0, db, it, done, outcomes, phase.next', phase.other, cfg);
    } else {
      hide MergeSignal, Verified, MarkVerified, RecordFirst;
    }
  }

  lemma StillFramed(db0: Db, db: Db, db': Db, items: seq<Item>, i: nat)
    requires ItemsOk(db0, items) && i < |items| && Framed(db0, db, items) && OnlyItsRows(db, db', items[i])
    ensures Framed(db0, db', items)
  {
    assert ItemSignal(items, KeyOf(items[i])) && ItemRow(db0, items, RowKey(db0, items[i]));
    forall k: Key | !ItemRow(db0, items, k) ensures Untouched(db0, db', k) {
      assert Untouched(db0, db, k) && Untouched(db, db', k);
    }
  }

  lemma BusyElsewhere(db0: Db, db: Db, db': Db, it: Item, other: Item, worker: Worker, cfg: Config)
    requires db.sessions == db0.sessions && it.session < |db.sessions| && other.session < |db.sessions|
    requires other.student != it.student && OnlyItsRows(db, db', it) && worker.Busy?
    requires BusyOk(db0, db, other, worker.done, worker.outcomes, worker.phase, cfg)
    ensures BusyOk(db0, db', other, worker.done, worker.outcomes, worker.phase, cfg)
  {
    OthersSee(db, db', it, other);
  }

  lemma TurnRecordsOk(db0: Db, pool: Pool, items: seq<Item>, w: nat, cfg: Config)
    requires PoolOk(db0, pool, items, cfg) && w < |pool.workers| && pool.workers[w].Busy?
    requires pool.workers[w].done < |items[pool.workers[w].item].readings|
    ensures PoolOk(db0, Turn(pool, items, w, cfg), items, cfg)
  {
    hide RecordingStep, RecordFirst, BusyOk, Framed, OnlyItsRows, SliceOf;
    var b := pool.workers[w];
    var it := items[b.item];
    assert WorkerOk(db0, pool, items, w, cfg);
    FramedSessions(db0, pool.db, items);
    RecordingStepOk(db0, pool.db, it, b.done, b.outcomes, b.phase, cfg);
    var pool' := Turn(pool, items, w, cfg);
    assert OnlyItsRows(pool.db, pool'.db, it);
    StillFramed(db0, pool.db, pool'.db, items, b.item);
    FramedSessions(db0, pool'.db, items);
    forall v | 0 <= v < |pool.workers| ensures WorkerOk(db0, pool', items, v, cfg) {
      assert WorkerOk(db0, pool, items, v, cfg);
      if v != w && pool.workers[v].Busy? {
        assert HeldBy(pool.workers[v]) != HeldBy(pool.workers[w]);
        BusyElsewhere(db0, pool.db, pool'.db, it, items[pool.workers[v].item], pool.workers[v], cfg);
      }
    }
    forall i | 0 <= i < |items| ensures ItemOk(db0, pool', items, i, cfg) {
      assert ItemOk(db0, pool, items, i, cfg);
      if i != b.item {
        OthersSee(pool.db, pool'.db, it, items[i]);
        HeldStill(pool, pool', w, i);
      } else {
        assert HeldBy(pool'.workers[w]) == Some(i);
      }
    }
  }

  lemma FramedSessions(db0: Db, db: Db, items: seq<Item>)
    requires ItemsOk(db0, items) && Framed(db0, db, items)
    ensures db.sessions == db0.sessions
  {
  }

  lemma HeldStill(pool: Pool, pool': Pool, w: nat, i: nat)
    requires w < |pool.workers| == |pool'.workers| && forall v :: 0 <= v < |pool.workers| && v != w ==> pool'.workers[v] == pool.workers[v]
    requires HeldBy(pool.workers[w]) != Some(i)
    ensures (exists v :: 0 <= v < |pool.workers| && HeldBy(pool.workers[v]) == Some(i)) ==>
              exists v :: 0 <= v < |pool'.workers| && HeldBy(pool'.workers[v]) == Some(i)
  {
  }

  lemma TurnOk(db0: Db, pool: Pool, items: seq<Item>, w: nat, cfg: Config)
    requires PoolOk(db0, pool, items, cfg) && w < |pool.workers|
    ensures PoolOk(db0, Turn(pool, items, w, cfg), items, cfg)
  {
    hide RecordingStep, RecordFirst, Framed, SliceOf;
    assert WorkerOk(db0, pool, items, w, cfg);
    var pool' := Turn(pool, items, w, cfg);
    match pool.workers[w]
    case Busy(item, done, outcomes, phase) =>
      if done < |items[item].readings| {
        TurnRecordsOk(db0, pool, items, w, cfg);
      } else {
        ResultOk(db0, pool, items, w, cfg);
      }
    case Ready => TakeOk(db0, pool, items, w, cfg);
    case _ =>
  }

  lemma TakeOk(db0: Db, pool: Pool, items: seq<Item>, w: nat, cfg: Config)
    requires PoolOk(db0, pool, items, cfg) && w < |pool.workers| && pool.workers[w].Ready?
    ensures PoolOk(db0, Turn(pool, items, w, cfg), items, cfg)
  {
    hide RecordingStep, Framed, SliceOf;
    var pool' := Turn(pool, items, w, cfg);
    forall v | 0 <= v < |pool.workers| && HeldBy(pool.workers[v]).Some?
      ensures HeldBy(pool.workers[v]).value < pool.next
    {
      assert WorkerOk(db0, pool, items, v, cfg);
    }
    assert NoSharing(pool'.workers);
    forall i | 0 <= i < |items| ensures ItemOk(db0, pool', items, i, cfg) {
      assert ItemOk(db0, pool, items, i, cfg);
      if pool.next < |items| && i == pool.next {
        assert HeldBy(pool'.workers[w]) == Some(i);
      } else {
        HeldStill(pool, pool', w, i);
      }
    }
    forall v | 0 <= v < |pool.workers| ensures WorkerOk(db0, pool', items, v, cfg) {
      assert WorkerOk(db0, pool, items, v, cfg);
      if pool.next < |items| {
        assert ItemOk(db0, pool, items, pool.next, cfg);
      }
    }
  }

  lemma ResultOk(db0: Db, pool: Pool, items: seq<Item>, w: nat, cfg: Config)
    requires PoolOk(db0, pool, items, cfg) && w < |pool.workers| && pool.workers[w].Busy?
    requires pool.workers[w].done >= |items[pool.workers[w].item].readings|
    ensures PoolOk(db0, Turn(pool, items, w, cfg), items, cfg)
  {
    hide RecordingStep, RecordFirst, Framed, SliceOf;
    var pool' := Turn(pool, items, w, cfg);
    var item := pool.workers[w].item;
    assert WorkerOk(db0, pool, items, w, cfg);
    forall i | 0 <= i < |items| ensures ItemOk(db0, pool', items, i, cfg) {
      assert ItemOk(db0, pool, items, i, cfg);
      if i != item {
        HeldStill(pool, pool', w, i);
      }
    }
    forall v | 0 <= v < |pool.workers| ensures WorkerOk(db0, pool', items, v, cfg) {
      assert WorkerOk(db0, pool, items, v, cfg);
      assert v != w ==> HeldBy(pool.workers[v]) != Some(item);
    }
  }

  lemma RejectOk(db0: Db, pool: Pool, items: seq<Item>, w: nat, cfg: Config)
    requires PoolOk(db0, pool, items, cfg) && w < |pool.workers|
    ensures PoolOk(db0, Reject(pool, w), items, cfg)
  {
    hide RecordFirst, Framed, SliceOf;
    var pool' := Reject(pool, w);
    assert WorkerOk(db0, pool, items, w, cfg);
    forall i | 0 <= i < |items| ensures ItemOk(db0, pool', items, i, cfg) {
      assert ItemOk(db0, pool, items, i, cfg);
      if v :| 0 <= v < |pool.workers| && HeldBy(pool.workers[v]) == Some(i) {
        assert HeldBy(pool'.workers[v]) == Some(i);
      }
    }
    forall v | 0 <= v < |pool.workers| ensures WorkerOk(db0, pool', items, v, cfg) {
      assert WorkerOk(db0, pool, items, v, cfg);
    }
  }

  lemma {:induction false} PlayOk(db: Db, items: seq<Item>, limit: int, moves: seq<Move>, cfg: Config)
    requires ItemsOk(db, items)
    ensures PoolOk(db, Play(StartPool(db, items, limit), items, moves, cfg), items, cfg)
    decreases |moves|
  {
    hide PoolOk, Turn, Reject;
    if moves == [] {
      StartOk(db, items, limit, cfg);
    } else {
      PlayOk(db, items, limit, moves[..|moves| - 1], cfg);
      var before, move := Play(StartPool(db, items, limit), items, moves[..|moves| - 1], cfg), moves[|moves| - 1];
      if move.worker < |before.workers| {
        TurnOk(db, before, items, move.worker, cfg);
        RejectOk(db, before, items, move.worker, cfg);
      }
    }
  }

  /** For every schedule: no item is ever held by two workers, at most max(1, limit) are in flight, and
      the result of an item, once there, is that of recording its readings alone, in its own place. */
  lemma EveryScheduleIsOrderly(db: Db, items: seq<Item>, limit: int, moves: seq<Move>, cfg: Config)
    requires ItemsOk(db, items)
    ensures var pool := Play(StartPool(db, items, limit), items, moves, cfg);
            && NoSharing(pool.workers)
            && |pool.workers| <= (if limit < 1 then 1 else limit)
            && (forall i :: 0 <= i < |items| && pool.results[i].Some? ==>
                  pool.results[i].value == RecordFirst(SliceOf(db, items[i]), items[i], |items[i].readings|, cfg).1)
  {
    hide RecordFirst, SliceOf, Framed, WorkerOk;
    PlayOk(db, items, limit, moves, cfg);
    var pool := Play(StartPool(db, items, limit), items, moves, cfg);
    forall i | 0 <= i < |items| && pool.results[i].Some?
      ensures pool.results[i].value == RecordFirst(SliceOf(db, items[i]), items[i], |items[i].readings|, cfg).1
    {
      assert ItemOk(db, pool, items, i, cfg);
    }
  }

  // ---- the same rows as a sequential recording ---------------------------------------------

  function RecordInOrder(db: Db, items: seq<Item>, cfg: Config): (after: Db)
    requires ItemsOk(db, items)
    ensures after.sessions == db.sessions
  {
    if items == [] then db
    else
      var it := items[|items| - 1];
      RecordReadings(RecordInOrder(db, items[..|items| - 1], cfg), it, |it.readings|, cfg)
  }

  function RecordReadings(db: Db, it: Item, n: nat, cfg: Config): (after: Db)
    requires it.session < |db.sessions| && n <= |it.readings|
    ensures after.sessions == db.sessions
  {
    if n == 0 then db
    else
      var r := it.readings[n - 1];
      RecordSignal(RecordReadings(db, it, n - 1, cfg), it.session, it.student, it.kind, r.value, r.at, cfg).0
  }

  lemma RecordSignalOnSlice(db: Db, it: Item, r: Reading, cfg: Config)
    requires it.session < |db.sessions|
    ensures var (db', outcome) := RecordSignal(db, it.session, it.student, it.kind, r.value, r.at, cfg);
            && OnlyItsRows(db, db', it)
            && SliceOf(db', it) == RecordOne(SliceOf(db, it), it, r, cfg).0
            && outcome == RecordOne(SliceOf(db, it), it, r, cfg).1
  {
    hide MergeSignal, Verified;
  }

  lemma {:induction false} RecordReadingsOnSlice(db: Db, it: Item, n: nat, cfg: Config)
    requires it.session < |db.sessions| && n <= |it.readings|
    ensures var db' := RecordReadings(db, it, n, cfg);
            OnlyItsRows(db, db', it) && SliceOf(db', it) == RecordFirst(SliceOf(db, it), it, n, cfg).0
  {
    hide RecordSignal, RecordOne, SliceOf;
    if n > 0 {
      RecordReadingsOnSlice(db, it, n - 1, cfg);
      var mid := RecordReadings(db, it, n - 1, cfg);
      RecordSignalOnSlice(mid, it, it.readings[n - 1], cfg);
      forall k: Key | k != RowKey(db, it) ensures Untouched(db, RecordReadings(db, it, n, cfg), k) {
        assert Untouched(db, mid, k) && Untouched(mid, RecordReadings(db, it, n, cfg), k);
      }
    }
  }

  lemma {:induction false} RecordInOrderOnSlices(db: Db, items: seq<Item>, all: seq<Item>, cfg: Config)
    requires ItemsOk(db, all) && items <= all
    ensures ItemsOk(db, items) && Framed(db, RecordInOrder(db, items, cfg), all)
    ensures forall i :: 0 <= i < |all| ==>
              SliceOf(RecordInOrder(db, items, cfg), all[i])
              == if i < |items| then RecordFirst(SliceOf(db, all[i]), all[i], |all[i].readings|, cfg).0 else SliceOf(db, all[i])
  {
    hide RecordFirst, SliceOf, RecordReadings, OnlyItsRows;
    if items != [] {
      var last := |items| - 1;
      RecordInOrderOnSlices(db, items[..last], all, cfg);
      var mid, after := RecordInOrder(db, items[..last], cfg), RecordInOrder(db, items, cfg);
      RecordReadingsOnSlice(mid, all[last], |all[last].readings|, cfg);
      StillFramed(db, mid, after, all, last);
      forall i | 0 <= i < |all| && i != last ensures SliceOf(after, all[i]) == SliceOf(mid, all[i]) {
        OthersSee(mid, after, all[last], all[i]);
      }
    }
  }

  lemma SameRecords(a: Db, b: Db)
    requires forall k: Key :: Untouched(a, b, k)
    ensures a.records == b.records && a.verifications == b.verifications
  {
    forall k: Key ensures (k in a.records <==> k in b.records) && (k in a.verifications <==> k in b.verifications) {
      assert Untouched(a, b, k);
    }
    forall k | k in a.records ensures a.records[k] == b.records[k] { assert Untouched(a, b, k); }
    forall k | k in a.verifications ensures a.verifications[k] == b.verifications[k] { assert Untouched(a, b, k); }
  }

  lemma SameSlicesSameRows(db0: Db, a: Db, b: Db, items: seq<Item>)
    requires ItemsOk(db0, items) && Framed(db0, a, items) && Framed(db0, b, items)
    requires forall i :: 0 <= i < |items| ==> SliceOf(a, items[i]) == SliceOf(b, items[i])
    ensures a == b
  {
    forall k: SignalKey ensures SignalAt(a.signals, k) == SignalAt(b.signals, k) {
      if ItemSignal(items, k) {
        var i :| 0 <= i < |items| && KeyOf(items[i]) == k;
        assert SliceOf(a, items[i]) == SliceOf(b, items[i]);
      }
    }
    forall k: Key ensures Untouched(a, b, k) {
      if ItemRow(db0, items, k) {
        var i :| 0 <= i < |items| && RowKey(db0, items[i]) == k;
        assert SliceOf(a, items[i]) == SliceOf(b, items[i]);
      } else {
        assert Untouched(db0, a, k) && Untouched(db0, b, k);
      }
    }
    assert forall k: SignalKey :: k in a.signals <==> SignalAt(a.signals, k).Some?;
    assert forall k: SignalKey :: k in b.signals <==> SignalAt(b.signals, k).Some?;
    assert a.signals == b.signals;
    SameRecords(a, b);
  }

  lemma CompletedIsSequential(db: Db, pool: Pool, items: seq<Item>, cfg: Config)
    requires PoolOk(db, pool, items, cfg) && Completed(pool) && (items != [] ==> pool.workers != [])
    ensures pool.db == RecordInOrder(db, items, cfg)
    ensures forall i :: 0 <= i < |items| ==>
              pool.results[i] == Some(RecordFirst(SliceOf(db, items[i]), items[i], |items[i].readings|, cfg).1)
  {
    hide RecordFirst, SliceOf, Framed, BusyOk, RecordInOrder;
    RecordInOrderOnSlices(db, items, items, cfg);
    FramedSessions(db, pool.db, items);
    forall i | 0 <= i < |items|
      ensures SliceOf(pool.db, items[i]) == SliceOf(RecordInOrder(db, items, cfg), items[i])
      ensures pool.results[i] == Some(RecordFirst(SliceOf(db, items[i]), items[i], |items[i].readings|, cfg).1)
    {
      assert ItemOk(db, pool, items, i, cfg);
      assert WorkerOk(db, pool, items, 0, cfg);
    }
    FramedSessions(db, RecordInOrder(db, items, cfg), items);
    SameSlicesSameRows(db, pool.db, RecordInOrder(db, items, cfg), items);
  }

  /** For every schedule that completes, the rows are those of recording the items one by one, and every
      item has its own result in its own place. */
  lemma ConcurrentIsSequential(db: Db, items: seq<Item>, limit: int, moves: seq<Move>, cfg: Config)
    requires ItemsOk(db, items) && Completed(Play(StartPool(db, items, limit), items, moves, cfg))
    ensures var pool := Play(StartPool(db, items, limit), items, moves, cfg);
            && pool.db == RecordInOrder(db, items, cfg)
            && forall i :: 0 <= i < |items| ==>
                 pool.results[i] == Some(RecordFirst(SliceOf(db, items[i]), items[i], |items[i].readings|, cfg).1)
  {
    hide PoolOk, Play, RecordInOrder, RecordFirst, SliceOf;
    PlayOk(db, items, limit, moves, cfg);
    CompletedIsSequential(db, Play(StartPool(db, items, limit), items, moves, cfg), items, cfg);
  }

  // ---- every schedule ends --------------------------------------------------------------

  function Cost(it: Item): nat {
    4 * |it.readings| + 2
  }

  function CostFrom(items: seq<Item>, next: nat): nat
    requires next <= |items|
    decreases |items| - next
  {
    if next == |items| then 0 else Cost(items[next]) + CostFrom(items, next + 1)
  }

  function Waits(phase: Phase): nat {
    match phase case Start => 0 case HavePrev(_) => 1 case Written(_) => 2 case HaveOther(_, _) => 3
  }

  function Left(worker: Worker, items: seq<Item>): nat {
    match worker
    case Ready => 1
    case Busy(i, done, _, phase) =>
      if i < |items| && done < |items[i].readings| then 4 * (|items[i].readings| - done) + 2 - Waits(phase) else 2
    case _ => 0
  }

  function LeftOver(workers: seq<Worker>, items: seq<Item>): nat {
    if workers == [] then 0 else LeftOver(workers[..|workers| - 1], items) + Left(workers[|workers| - 1], items)
  }

  function Work(pool: Pool, items: seq<Item>): nat
    requires pool.next <= |items|
  {
    CostFrom(items, pool.next) + LeftOver(pool.workers, items)
  }

  lemma {:induction false} LeftOverUpdate(workers: seq<Worker>, w: nat, worker: Worker, items: seq<Item>)
    requires w < |workers|
    ensures LeftOver(workers[w := worker], items) == LeftOver(workers, items) - Left(workers[w], items) + Left(worker, items)
  {
    var last := |workers| - 1;
    if w < last {
      assert workers[w := worker][..last] == workers[..last][w := worker];
      LeftOverUpdate(workers[..last], w, worker, items);
    } else {
      assert workers[w := worker][..last] == workers[..last];
    }
  }

  lemma BusyMakesProgress(pool: Pool, items: seq<Item>, w: nat, cfg: Config)
    requires PoolFits(pool, items) && w < |pool.workers| && pool.workers[w].Busy?
    ensures Left(Turn(pool, items, w, cfg).workers[w], items) < Left(pool.workers[w], items)
  {
  }

  /** Whichever live worker the schedule picks, less work is left: every schedule ends. */
  lemma TurnMakesProgress(pool: Pool, items: seq<Item>, w: nat, cfg: Config)
    requires PoolFits(pool, items) && w < |pool.workers| && IsLive(pool.workers[w])
    ensures Work(Turn(pool, items, w, cfg), items) < Work(pool, items)
    ensures Work(Reject(pool, w), items) <= Work(pool, items)
    ensures pool.workers[w].Busy? ==> Work(Reject(pool, w), items) < Work(pool, items)
  {
    hide RecordingStep, LeftOver, ItemsOk;
    LeftOverUpdate(pool.workers, w, Turn(pool, items, w, cfg).workers[w], items);
    LeftOverUpdate(pool.workers, w, Reject(pool, w).workers[w], items);
    if pool.workers[w].Busy? {
      BusyMakesProgress(pool, items, w, cfg);
    }
  }
}

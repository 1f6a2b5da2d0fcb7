/** The bounded parallel map as a program: worker loops around a shared counter and a results array. */
module BoundedWorkers {
  import opened Options
  import opened Signals
  import opened Attendance
  import opened WorkerPool

  const SIGNAL_CONCURRENCY := 6

  class SharedPool {
    const items: seq<Item>
    var next: nat
    var results: seq<Option<seq<Outcome>>>
    var workers: seq<Worker>
    var db: Db

    constructor (db: Db, items: seq<Item>, limit: int)
      ensures this.items == items && State() == StartPool(db, items, limit)
    {
      this.items, this.next, this.db := items, 0, db;
      results := seq(|items|, _ => None);
      workers := seq(InFlight(limit, |items|), _ => Ready);
    }

    function State(): Pool
      reads this
    {
      Pool(next, workers, results, db)
    }

    // One worker loop, from one wait to the next.
    method Turn(w: nat, cfg: Config)
      requires PoolFits(State(), items) && w < |workers|
      modifies this
      ensures State() == WorkerPool.Turn(old(State()), items, w, cfg)
    {
      var worker := workers[w];
      if worker.Ready? {
        if next < |items| {
          var index := next;
          next := next + 1;
          workers := workers[w := Busy(index, 0, [], Start)];
        } else {
          workers := workers[w := Finished];
        }
      } else if worker.Busy? {
        if worker.done < |items[worker.item].readings| {
          var step := RecordingStep(db, items[worker.item], worker.done, worker.outcomes, worker.phase, cfg);
          db := step.3;
          workers := workers[w := Busy(worker.item, step.0, step.1, step.2)];
        } else {
          results := results[worker.item := Some(worker.outcomes)];
          workers := workers[w := Ready];
        }
      }
    }
  }

  ghost predicate SomeRejected(workers: seq<Worker>) {
    exists w :: 0 <= w < |workers| && workers[w].Rejected?
  }

  lemma TurnRejectsNobody(pool: Pool, items: seq<Item>, w: nat, cfg: Config)
    requires PoolFits(pool, items) && w < |pool.workers|
    ensures SomeRejected(Turn(pool, items, w, cfg).workers) <==> SomeRejected(pool.workers)
  {
    hide RecordingStep;
    var after := Turn(pool, items, w, cfg).workers;
    forall v | 0 <= v < |after| ensures after[v].Rejected? <==> pool.workers[v].Rejected? {
    }
  }

  /** The whole call, under a scheduler that picks any live worker and may reject any call: it ends, it
      fails exactly if some worker was rejected, and otherwise its results and rows are the sequential ones. */
  method MapWithLimit(db: Db, items: seq<Item>, limit: int, cfg: Config)
    returns (r: Result<seq<seq<Outcome>>, ()>, rows: Db, rejections: nat)
    requires ItemsOk(db, items)
    ensures r.Err? <==> rejections > 0
    ensures r.Ok? ==>
              && rows == RecordInOrder(db, items, cfg)
              && |r.value| == |items|
              && forall i :: 0 <= i < |items| ==>
                   r.value[i] == RecordFirst(SliceOf(db, items[i]), items[i], |items[i].readings|, cfg).1
    ensures Framed(db, rows, items)
  {
    hide RecordFirst, SliceOf, RecordInOrder, Framed, WorkerOk, ItemOk, Work;
    var pool := new SharedPool(db, items, limit);
    rejections := 0;
    StartOk(db, items, limit, cfg);
    while exists w :: 0 <= w < |pool.workers| && IsLive(pool.workers[w])
      invariant pool.items == items && PoolOk(db, pool.State(), items, cfg)
      invariant |pool.workers| == InFlight(limit, |items|)
      invariant rejections > 0 <==> SomeRejected(pool.workers)
      decreases Work(pool.State(), items)
    {
      var w :| 0 <= w < |pool.workers| && IsLive(pool.workers[w]);
      TurnMakesProgress(pool.State(), items, w, cfg);
      TurnOk(db, pool.State(), items, w, cfg);
      RejectOk(db, pool.State(), items, w, cfg);
      var rejected: bool := *;
      if rejected && pool.workers[w].Busy? {
        pool.workers := Reject(pool.State(), w).workers;
        assert pool.workers[w].Rejected?;
        rejections := rejections + 1;
      } else {
        TurnRejectsNobody(pool.State(), items, w, cfg);
        pool.Turn(w, cfg);
      }
    }
    rows := pool.db;
    if forall w :: 0 <= w < |pool.workers| ==> pool.workers[w] == Finished {
      CompletedIsSequential(db, pool.State(), items, cfg);
      r := Ok(seq(|items|, i requires 0 <= i < |items| && |pool.results| == |items| && pool.results[i].Some?
                             reads pool => pool.results[i].value));
    } else {
      r := Err(());
    }
  }
}

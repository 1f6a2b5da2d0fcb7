/** The pickup watch's decisions, as pure functions of times. */
module PickupPolicy {
  import opened Options

  const PROMPT_EVERY_MS := 60_000
  const PROMPT_TTL_MS := 15_000

  // The latest of the instants that exist, the epoch if there is none.
  function LatestOf(times: seq<Option<int>>): int {
    if times == [] then 0
    else
      var rest := LatestOf(times[1..]);
      if times[0].Some? && times[0].value > rest then times[0].value else rest
  }

  // What bears on when a student was last known to be in the center.
  datatype Evidence = Evidence(
    lastFaceAt: Option<int>, lastBleAt: Option<int>, stillHereAt: Option<int>,
    arrivedAt: int, windowStart: int, unhealthyAt: int)

  function AbsentSince(e: Evidence): int {
    LatestOf([e.lastFaceAt, e.lastBleAt, e.stillHereAt, Some(e.arrivedAt), Some(e.windowStart), Some(e.unhealthyAt)])
  }

  datatype Prompt = Prompt(createdAt: int, expiresAt: int, answeredAt: Option<int>)

  datatype Action = Wait | AskTeacher | MarkPickedUp

  function DecidePickupAction(now: int, since: int, lastCheck: Option<Prompt>, absentMs: int): Action {
    if lastCheck.Some? && lastCheck.value.answeredAt == None && lastCheck.value.expiresAt > now then Wait
    else if now - since >= absentMs then MarkPickedUp
    else
      var dueFrom := if lastCheck.Some? && lastCheck.value.createdAt > since then lastCheck.value.expiresAt else since;
      if now - dueFrom >= PROMPT_EVERY_MS then AskTeacher else Wait
  }

  /** The absence starts at the last of the six pieces of evidence: none is later, and it is one of them. */
  lemma AbsentSinceExact(e: Evidence)
    ensures var since := AbsentSince(e);
            && (e.lastFaceAt.Some? ==> e.lastFaceAt.value <= since)
            && (e.lastBleAt.Some? ==> e.lastBleAt.value <= since)
            && (e.stillHereAt.Some? ==> e.stillHereAt.value <= since)
            && e.arrivedAt <= since && e.windowStart <= since && e.unhealthyAt <= since && 0 <= since
            && Some(since) in {e.lastFaceAt, e.lastBleAt, e.stillHereAt,
                               Some(e.arrivedAt), Some(e.windowStart), Some(e.unhealthyAt), Some(0)}
  {
    var six := [e.lastFaceAt, e.lastBleAt, e.stillHereAt, Some(e.arrivedAt), Some(e.windowStart), Some(e.unhealthyAt)];
    LatestOfExact(six);
    assert e.lastFaceAt == six[0] && e.lastBleAt == six[1] && e.stillHereAt == six[2];
    assert Some(e.arrivedAt) == six[3] && Some(e.windowStart) == six[4] && Some(e.unhealthyAt) == six[5];
  }

  lemma {:induction false} LatestOfExact(times: seq<Option<int>>)
    ensures forall k :: 0 <= k < |times| && times[k].Some? ==> times[k].value <= LatestOf(times)
    ensures LatestOf(times) >= 0 && (LatestOf(times) == 0 || Some(LatestOf(times)) in times)
  {
    if times != [] {
      LatestOfExact(times[1..]);
      forall k | 0 <= k < |times| && times[k].Some? ensures times[k].value <= LatestOf(times) {
        if k > 0 { assert times[1..][k - 1] == times[k]; }
      }
    }
  }
}

/** One-time codes: password resets by email and codes for account actions. Any number of requests that
    guess or ask for a code take turns, one database call at a time. */
module Otp {
  import opened Options

  type Uid = nat
  type Email = string
  type Digest = int  // the keyed hash of a code; only hashes are stored and compared

  datatype Action = PasswordChange | AccountDelete

  // Whom a code is for: a mailbox (password reset) or one action of an account.
  datatype Owner = Mailbox(email: Email) | Account(user: Uid, action: Action)

  // Rows are only marked as removed, so a row's id is its position and is never used again.
  datatype Code = Code(owner: Owner, digest: Digest, used: bool, attempts: nat, expiresAt: int, createdAt: int, removed: bool)

  datatype User = User(email: Email, active: bool, tokenVersion: nat)

  // Where a request waits. A guess: before the lookup, with the code it found, with one attempt
  // claimed, after a matching comparison, and at its end.
  datatype Phase =
    | Start
    | Found(id: nat)
    | Claimed(id: nat)
    | Matched(id: nat)
    | Succeeded
    | Rejected

  datatype Issuing = AskedFor | AccountSeen | CooledDown | OthersRetired(expiresAt: int) | Issued | NotIssued

  datatype Request =
    | Guess(owner: Owner, guess: Digest, phase: Phase)
    | Issue(owner: Owner, stage: Issuing)

  datatype Sys = Sys(codes: seq<Code>, users: map<Uid, User>, requests: seq<Request>)

  const MAX_OTP_ATTEMPTS := 5
  const OTP_RESEND_COOLDOWN_MS := 60_000
  const OTP_TTL_MS := 600_000

  // ---- the rows -----------------------------------------------------------------

  predicate IsLive(c: Code, owner: Owner) {
    !c.removed && !c.used && c.owner == owner
  }

  predicate NoneLive(codes: seq<Code>, owner: Owner) {
    forall k :: 0 <= k < |codes| ==> !IsLive(codes[k], owner)
  }

  // The newest unused code; among equal times the database may return any.
  predicate IsNewest(codes: seq<Code>, owner: Owner, id: nat) {
    && id < |codes| && IsLive(codes[id], owner)
    && forall k :: 0 <= k < |codes| && IsLive(codes[k], owner) ==> codes[k].createdAt <= codes[id].createdAt
  }

  function Retire(codes: seq<Code>, owner: Owner): seq<Code> {
    seq(|codes|, k requires 0 <= k < |codes| => if IsLive(codes[k], owner) then codes[k].(used := true) else codes[k])
  }

  predicate SentRecently(codes: seq<Code>, owner: Owner, now: int) {
    exists k :: 0 <= k < |codes| && !codes[k].removed && codes[k].owner == owner && now - codes[k].createdAt < OTP_RESEND_COOLDOWN_MS
  }

  predicate CanClaim(c: Code) {
    !c.removed && !c.used && c.attempts < MAX_OTP_ATTEMPTS
  }

  function RemoveAccountCodes(codes: seq<Code>, user: Uid): seq<Code> {
    seq(|codes|, k requires 0 <= k < |codes| =>
      if codes[k].owner.Account? && codes[k].owner.user == user then codes[k].(removed := true) else codes[k])
  }

  function CleanUp(codes: seq<Code>, now: int): seq<Code> {
    seq(|codes|, k requires 0 <= k < |codes| =>
      if codes[k].used || codes[k].expiresAt < now then codes[k].(removed := true) else codes[k])
  }

  // ---- one turn of a request ------------------------------------------------------

  // `pick`: the code the lookup returns, or the account of an email.
  datatype Turn = Turn(pick: nat, digest: Digest)

  predicate HasEmail(users: map<Uid, User>, u: Uid, email: Email) {
    u in users && users[u].email == email
  }

  predicate KnownEmail(users: map<Uid, User>, email: Email) {
    exists u :: u in users && users[u].email == email
  }

  // The transaction at the end of a reset: every outstanding code of the mailbox is consumed and the
  // password changed, or (no code left, no account) nothing happens.
  function ResetStep(sys: Sys, i: nat, email: Email, pick: Uid): (after: Sys)
    requires i < |sys.requests| && sys.requests[i].Guess?
    ensures |after.requests| == |sys.requests| && after.requests[i].Guess?
  {
    var g := sys.requests[i];
    if NoneLive(sys.codes, Mailbox(email)) || !KnownEmail(sys.users, email)
    then sys.(requests := sys.requests[i := g.(phase := Rejected)])
    else if !HasEmail(sys.users, pick, email) then sys
    else
      sys.(codes := RemoveAccountCodes(Retire(sys.codes, Mailbox(email)), pick),
           users := sys.users[pick := sys.users[pick].(tokenVersion := sys.users[pick].tokenVersion + 1)],
           requests := sys.requests[i := g.(phase := Succeeded)])
  }

  function GuessStep(sys: Sys, i: nat, turn: Turn, now: int): (after: Sys)
    requires i < |sys.requests| && sys.requests[i].Guess?
    ensures |after.requests| == |sys.requests| && after.requests[i].Guess?
  {
    var g := sys.requests[i];
    var rejected := sys.(requests := sys.requests[i := g.(phase := Rejected)]);
    match g.phase
    case Start =>
      if NoneLive(sys.codes, g.owner) then rejected
      else if !IsNewest(sys.codes, g.owner, turn.pick) then sys
      else if sys.codes[turn.pick].expiresAt < now || sys.codes[turn.pick].attempts >= MAX_OTP_ATTEMPTS then rejected
      else sys.(requests := sys.requests[i := g.(phase := Found(turn.pick))])
    case Found(id) =>
      if id < |sys.codes| && CanClaim(sys.codes[id])
      then sys.(codes := sys.codes[id := sys.codes[id].(attempts := sys.codes[id].attempts + 1)],
                requests := sys.requests[i := g.(phase := Claimed(id))])
      else rejected
    case Claimed(id) =>
      if id < |sys.codes| && g.guess == sys.codes[id].digest
      then sys.(requests := sys.requests[i := g.(phase := Matched(id))])
      else rejected
    case Matched(id) =>
      if g.owner.Mailbox? then ResetStep(sys, i, g.owner.email, turn.pick)
      else if id < |sys.codes| && !sys.codes[id].removed && !sys.codes[id].used
      then sys.(codes := sys.codes[id := sys.codes[id].(used := true)],
                requests := sys.requests[i := g.(phase := Succeeded)])
      else rejected
    case Succeeded => sys
    case Rejected => sys
  }

  function IssueStep(sys: Sys, i: nat, turn: Turn, now: int): (after: Sys)
    requires i < |sys.requests| && sys.requests[i].Issue?
    ensures |after.requests| == |sys.requests| && after.requests[i].Issue?
  {
    var r := sys.requests[i];
    var refused := sys.(requests := sys.requests[i := r.(stage := NotIssued)]);
    match r.stage
    case AskedFor =>
      if r.owner.Mailbox? then
        if exists u :: u in sys.users && sys.users[u].email == r.owner.email && sys.users[u].active
        then sys.(requests := sys.requests[i := r.(stage := AccountSeen)]) else refused
      else if r.owner.user in sys.users then sys.(requests := sys.requests[i := r.(stage := CooledDown)]) else refused
    case AccountSeen =>
      if SentRecently(sys.codes, r.owner, now) then refused
      else sys.(requests := sys.requests[i := r.(stage := CooledDown)])
    case CooledDown =>
      sys.(codes := Retire(sys.codes, r.owner), requests := sys.requests[i := r.(stage := OthersRetired(now + OTP_TTL_MS))])
    case OthersRetired(expiresAt) =>
      if r.owner.Account? && r.owner.user !in sys.users then refused
      else
        var expires := if r.owner.Account? then now + OTP_TTL_MS else expiresAt;
        sys.(codes := sys.codes + [Code(r.owner, turn.digest, false, 0, expires, now, false)],
             requests := sys.requests[i := r.(stage := Issued)])
    case Issued => sys
    case NotIssued => sys
  }

  // ---- everything that can happen ----------------------------------------------------

  datatype Event =
    | Arrives(owner: Owner, guess: Option<Digest>)
    | Goes(i: nat, turn: Turn)
    | GivesUp(i: nat)                              // after a match: wrong password, refused, or failed
    | CodesCleaned
    | AccountSaved(u: Uid, user: User)
    | AccountGone(u: Uid)

  datatype Stamped = Stamped(at: int, event: Event)

  function Step(sys: Sys, e: Stamped): Sys {
    match e.event
    case Arrives(owner, guess) =>
      sys.(requests := sys.requests + [if guess.Some? then Guess(owner, guess.value, Start) else Issue(owner, AskedFor)])
    case Goes(i, turn) =>
      if i >= |sys.requests| then sys
      else if sys.requests[i].Guess? then GuessStep(sys, i, turn, e.at) else IssueStep(sys, i, turn, e.at)
    case GivesUp(i) =>
      if i < |sys.requests| && sys.requests[i].Guess? && sys.requests[i].phase.Matched?
      then sys.(requests := sys.requests[i := sys.requests[i].(phase := Rejected)]) else sys
    case CodesCleaned => sys.(codes := CleanUp(sys.codes, e.at))
    case AccountSaved(u, user) => sys.(users := sys.users[u := user])
    case AccountGone(u) => sys.(users := sys.users - {u}, codes := RemoveAccountCodes(sys.codes, u))
  }

  function StateAt(run: seq<Stamped>, n: nat): Sys
    requires n <= |run|
  {
    if n == 0 then Sys([], map[], []) else Step(StateAt(run, n - 1), run[n - 1])
  }

  // ---- what runs are about --------------------------------------------------------------

  // The step compares a guess with the code row `id`.
  ghost predicate ComparesNow(sys: Sys, e: Stamped, id: nat) {
    e.event.Goes? && e.event.i < |sys.requests| && sys.requests[e.event.i].Guess? && sys.requests[e.event.i].phase == Claimed(id)
  }

  // Step `n` lets the guess of request `i` through.
  ghost predicate LetsThrough(run: seq<Stamped>, n: nat, i: nat)
    requires n < |run|
  {
    var before, after := StateAt(run, n).requests, StateAt(run, n + 1).requests;
    && i < |before| && before[i].Guess? && before[i].phase != Succeeded
    && i < |after| && after[i].Guess? && after[i].phase == Succeeded
  }

  ghost function Comparisons(run: seq<Stamped>, n: nat, id: nat): nat
    requires n <= |run|
  {
    if n == 0 then 0 else Comparisons(run, n - 1, id) + (if ComparesNow(StateAt(run, n - 1), run[n - 1], id) then 1 else 0)
  }

  // Step `n` is a success that used the code row `id`.
  ghost predicate SucceedsWith(run: seq<Stamped>, n: nat, id: nat)
    requires n < |run|
  {
    var sys, e := StateAt(run, n), run[n].event;
    && e.Goes? && e.i < |sys.requests| && sys.requests[e.i].Guess? && sys.requests[e.i].phase == Matched(id)
    && LetsThrough(run, n, e.i)
  }

  ghost function SuccessesWith(run: seq<Stamped>, n: nat, id: nat): nat
    requires n <= |run|
  {
    if n == 0 then 0 else SuccessesWith(run, n - 1, id) + (if SucceedsWith(run, n - 1, id) then 1 else 0)
  }

  // Step `n` resets the password of this mailbox.
  ghost predicate Resets(run: seq<Stamped>, n: nat, email: Email)
    requires n < |run|
  {
    var e := run[n].event;
    e.Goes? && LetsThrough(run, n, e.i) && StateAt(run, n).requests[e.i].owner == Mailbox(email)
  }

  ghost function ResetCount(run: seq<Stamped>, n: nat, email: Email): nat
    requires n <= |run|
  {
    if n == 0 then 0 else ResetCount(run, n - 1, email) + (if Resets(run, n - 1, email) then 1 else 0)
  }

  function Holding(requests: seq<Request>, id: nat): nat {
    if requests == [] then 0
    else
      var last := requests[|requests| - 1];
      Holding(requests[..|requests| - 1], id) + (if last.Guess? && last.phase == Claimed(id) then 1 else 0)
  }

  function IssuedTo(codes: seq<Code>, owner: Owner): nat {
    if codes == [] then 0
    else IssuedTo(codes[..|codes| - 1], owner) + (if codes[|codes| - 1].owner == owner then 1 else 0)
  }

  function UnusedOf(codes: seq<Code>, owner: Owner): nat {
    if codes == [] then 0
    else
      var last := codes[|codes| - 1];
      UnusedOf(codes[..|codes| - 1], owner) + (if last.owner == owner && !last.used then 1 else 0)
  }
}

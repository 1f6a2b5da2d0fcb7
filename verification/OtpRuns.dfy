/** What no interleaving of requests can change: how often a code is compared, how often it lets a
    request through, and how many resets a mailbox's codes are good for. */
module OtpRuns {
  import opened Options
  import opened Otp

  // ---- code rows ------------------------------------------------------------------

  // A row keeps what it was issued with; used and removed are for good, attempts only go up.
  ghost predicate SameCode(a: Code, b: Code) {
    && b.owner == a.owner && b.digest == a.digest && b.expiresAt == a.expiresAt && b.createdAt == a.createdAt
    && (a.used ==> b.used) && (a.removed ==> b.removed)
  }

  ghost predicate Claims(sys: Sys, e: Stamped, id: nat) {
    && e.event.Goes? && e.event.i < |sys.requests| && sys.requests[e.event.i].Guess?
    && sys.requests[e.event.i].phase == Found(id)
    && id < |sys.codes| && CanClaim(sys.codes[id])
  }

  ghost predicate Creates(sys: Sys, e: Stamped) {
    && e.event.Goes? && e.event.i < |sys.requests| && sys.requests[e.event.i].Issue?
    && sys.requests[e.event.i].stage.OthersRetired?
    && (sys.requests[e.event.i].owner.Account? ==> sys.requests[e.event.i].owner.user in sys.users)
  }

  ghost predicate CodesStep(sys: Sys, e: Stamped, after: seq<Code>) {
    && |after| == |sys.codes| + (if Creates(sys, e) then 1 else 0)
    && (forall k :: 0 <= k < |sys.codes| ==>
          SameCode(sys.codes[k], after[k])
          && after[k].attempts == sys.codes[k].attempts + (if Claims(sys, e, k) then 1 else 0))
    && (Creates(sys, e) ==>
          var c := after[|sys.codes|];
          c.owner == sys.requests[e.event.i].owner && !c.used && c.attempts == 0)
  }

  lemma GuessCodes(sys: Sys, e: Stamped)
    requires e.event.Goes? && e.event.i < |sys.requests| && sys.requests[e.event.i].Guess?
    ensures CodesStep(sys, e, GuessStep(sys, e.event.i, e.event.turn, e.at).codes)
  {
    hide IsNewest, NoneLive, KnownEmail;
  }

  lemma StepCodes(sys: Sys, e: Stamped)
    ensures CodesStep(sys, e, Step(sys, e).codes)
  {
    hide GuessStep, NoneLive, SentRecently;
    if e.event.Goes? && e.event.i < |sys.requests| && sys.requests[e.event.i].Guess? {
      GuessCodes(sys, e);
    }
  }

  // ---- comparisons -------------------------------------------------------------------

  function Holds(r: Request, id: nat): nat {
    if r.Guess? && r.phase == Claimed(id) then 1 else 0
  }

  lemma {:induction false} HoldingUpdate(requests: seq<Request>, i: nat, r: Request, id: nat)
    requires i < |requests|
    ensures Holding(requests[i := r], id) + Holds(requests[i], id) == Holding(requests, id) + Holds(r, id)
  {
    var last := |requests| - 1;
    if i < last {
      HoldingUpdate(requests[..last], i, r, id);
      assert requests[i := r][..last] == requests[..last][i := r];
    } else {
      assert requests[i := r][..last] == requests[..last];
    }
  }

  lemma HoldingAppend(requests: seq<Request>, r: Request, id: nat)
    ensures Holding(requests + [r], id) == Holding(requests, id) + Holds(r, id)
  {
  }

  lemma MovedHolds(sys: Sys, e: Stamped, id: nat)
    requires e.event.Goes? && e.event.i < |sys.requests|
    ensures e.event.i < |Step(sys, e).requests|
    ensures Holds(Step(sys, e).requests[e.event.i], id) + (if ComparesNow(sys, e, id) then 1 else 0)
         == Holds(sys.requests[e.event.i], id) + (if Claims(sys, e, id) then 1 else 0)
  {
  }

  // Claims and comparisons are the only steps that move the number of claimed, uncompared guesses.
  lemma StepHolding(sys: Sys, e: Stamped, id: nat)
    ensures Holding(Step(sys, e).requests, id) + (if ComparesNow(sys, e, id) then 1 else 0)
         == Holding(sys.requests, id) + (if Claims(sys, e, id) then 1 else 0)
  {
    hide CleanUp, RemoveAccountCodes, GuessStep, IssueStep, Holding;
    var after := Step(sys, e).requests;
    match e.event
    case Arrives(owner, guess) => HoldingAppend(sys.requests, after[|sys.requests|], id);
    case Goes(i, turn) =>
      if i < |sys.requests| {
        OneRequestMoves(sys, e);
        MovedHolds(sys, e, id);
        HoldingUpdate(sys.requests, i, after[i], id);
      }
    case GivesUp(i) => if i < |sys.requests| { HoldingUpdate(sys.requests, i, after[i], id); assert after == sys.requests[i := after[i]]; }
    case _ =>
  }

  lemma OneRequestMoves(sys: Sys, e: Stamped)
    requires e.event.Goes? && e.event.i < |sys.requests|
    ensures var after := Step(sys, e).requests; |after| == |sys.requests| && after == sys.requests[e.event.i := after[e.event.i]]
  {
  }

  function AttemptsOn(codes: seq<Code>, id: nat): nat {
    if id < |codes| then codes[id].attempts else 0
  }

  // Every claimed attempt is compared once, or not yet.
  lemma {:induction false} ClaimsAreCompared(run: seq<Stamped>, n: nat, id: nat)
    requires n <= |run|
    ensures var sys := StateAt(run, n);
            && Comparisons(run, n, id) + Holding(sys.requests, id) == AttemptsOn(sys.codes, id)
            && AttemptsOn(sys.codes, id) <= MAX_OTP_ATTEMPTS
  {
    hide Step;
    if n > 0 {
      ClaimsAreCompared(run, n - 1, id);
      var sys, e := StateAt(run, n - 1), run[n - 1];
      StepCodes(sys, e);
      StepHolding(sys, e, id);
    }
  }

  /** However many requests race, one code is compared with guesses at most five times, ever. */
  lemma GuessesPerCode(run: seq<Stamped>, n: nat, id: nat)
    requires n <= |run|
    ensures Comparisons(run, n, id) <= MAX_OTP_ATTEMPTS
  {
    hide StateAt;
    ClaimsAreCompared(run, n, id);
  }

  // ---- who is let through ----------------------------------------------------------------

  // What a waiting guess knows about its code.
  ghost predicate GuessOk(codes: seq<Code>, r: Request) {
    r.Guess? ==>
      match r.phase
      case Found(id) => id < |codes| && codes[id].owner == r.owner
      case Claimed(id) => id < |codes| && codes[id].owner == r.owner
      case Matched(id) => id < |codes| && codes[id].owner == r.owner && codes[id].digest == r.guess
      case _ => true
  }

  lemma GuessStaysOk(a: seq<Code>, b: seq<Code>, r: Request)
    requires GuessOk(a, r) && |a| <= |b| && forall k :: 0 <= k < |a| ==> SameCode(a[k], b[k])
    ensures GuessOk(b, r)
  {
  }

  lemma MovedGuessOk(sys: Sys, e: Stamped)
    requires e.event.Goes? && e.event.i < |sys.requests| && GuessOk(sys.codes, sys.requests[e.event.i])
    ensures e.event.i < |Step(sys, e).requests| && GuessOk(Step(sys, e).codes, Step(sys, e).requests[e.event.i])
  {
  }

  lemma {:induction false} GuessesKnowTheirCode(run: seq<Stamped>, n: nat)
    requires n <= |run|
    ensures forall k :: 0 <= k < |StateAt(run, n).requests| ==> GuessOk(StateAt(run, n).codes, StateAt(run, n).requests[k])
  {
    if n > 0 {
      GuessesKnowTheirCode(run, n - 1);
      var sys, e := StateAt(run, n - 1), run[n - 1];
      var after := StateAt(run, n);
      assert after == Step(sys, e);
      StepCodes(sys, e);
      forall k | 0 <= k < |after.requests| ensures GuessOk(after.codes, after.requests[k]) {
        hide Step, GuessOk;
        if e.event.Goes? && e.event.i < |sys.requests| {
          OneRequestMoves(sys, e);
          if k == e.event.i { MovedGuessOk(sys, e); } else { GuessStaysOk(sys.codes, after.codes, sys.requests[k]); }
        } else {
          OthersWait(sys, e, k);
          if k < |sys.requests| { GuessStaysOk(sys.codes, after.codes, sys.requests[k]); }
        }
      }
    }
  }

  lemma OthersWait(sys: Sys, e: Stamped, k: nat)
    requires k < |Step(sys, e).requests| && !(e.event.Goes? && e.event.i < |sys.requests|)
    ensures (k < |sys.requests| && Step(sys, e).requests[k] == sys.requests[k]) || GuessOk(Step(sys, e).codes, Step(sys, e).requests[k])
  {
  }

  lemma OnlyMatchesPass(sys: Sys, e: Stamped, i: nat)
    requires i < |sys.requests| && sys.requests[i].Guess? && sys.requests[i].phase != Succeeded
    requires i < |Step(sys, e).requests| && Step(sys, e).requests[i].Guess? && Step(sys, e).requests[i].phase == Succeeded
    ensures e.event.Goes? && e.event.i == i && sys.requests[i].phase.Matched?
    ensures sys.requests[i].owner.Mailbox? ==> !NoneLive(sys.codes, sys.requests[i].owner)
                                               && exists u :: Step(sys, e).codes
                                                              == RemoveAccountCodes(Retire(sys.codes, sys.requests[i].owner), u)
    ensures sys.requests[i].owner.Account? ==>
              var id := sys.requests[i].phase.id;
              id < |sys.codes| && !sys.codes[id].used && Step(sys, e).codes == sys.codes[id := sys.codes[id].(used := true)]
  {
  }

  /** Nobody gets through without having matched a code issued to exactly that mailbox, or to exactly
      that account and action. */
  lemma SuccessNeedsTheCode(run: seq<Stamped>, n: nat, i: nat)
    requires n < |run| && LetsThrough(run, n, i)
    ensures var sys := StateAt(run, n);
            && sys.requests[i].phase.Matched?
            && var id := sys.requests[i].phase.id;
               id < |sys.codes| && sys.codes[id].owner == sys.requests[i].owner && sys.codes[id].digest == sys.requests[i].guess
  {
    hide Step;
    GuessesKnowTheirCode(run, n);
    OnlyMatchesPass(StateAt(run, n), run[n], i);
    assert GuessOk(StateAt(run, n).codes, StateAt(run, n).requests[i]);
  }

  /** A code for an account action lets at most one request through. */
  lemma {:induction false} AccountCodesWorkOnce(run: seq<Stamped>, n: nat, id: nat)
    requires n <= |run| && id < |StateAt(run, n).codes| && StateAt(run, n).codes[id].owner.Account?
    ensures SuccessesWith(run, n, id) <= if StateAt(run, n).codes[id].used then 1 else 0
  {
    hide Step;
    if n > 0 {
      var sys, e := StateAt(run, n - 1), run[n - 1];
      StepCodes(sys, e);
      if id < |sys.codes| {
        AccountCodesWorkOnce(run, n - 1, id);
        if SucceedsWith(run, n - 1, id) {
          GuessesKnowTheirCode(run, n - 1);
          assert GuessOk(sys.codes, sys.requests[e.event.i]);
          OnlyMatchesPass(sys, e, e.event.i);
        }
      } else {
        NoSuccessBefore(run, n, id);
      }
    }
  }

  lemma {:induction false} NoSuccessBefore(run: seq<Stamped>, n: nat, id: nat)
    requires 0 < n <= |run| && id >= |StateAt(run, n - 1).codes|
    ensures SuccessesWith(run, n, id) == 0
    decreases n
  {
    hide Step;
    GuessesKnowTheirCode(run, n - 1);
    if SucceedsWith(run, n - 1, id) {
      assert false;
    }
    if n > 1 {
      StepCodes(StateAt(run, n - 2), run[n - 2]);
      NoSuccessBefore(run, n - 1, id);
    }
  }

  // ---- resets per mailbox ------------------------------------------------------------------

  lemma {:induction false} UnusedOnlyShrinks(a: seq<Code>, b: seq<Code>, owner: Owner)
    requires |a| == |b| && forall k :: 0 <= k < |a| ==> SameCode(a[k], b[k])
    ensures UnusedOf(b, owner) <= UnusedOf(a, owner) && IssuedTo(b, owner) == IssuedTo(a, owner)
    ensures (exists k :: 0 <= k < |a| && a[k].owner == owner && !a[k].used && b[k].used) ==> UnusedOf(b, owner) < UnusedOf(a, owner)
  {
    if a != [] {
      var last := |a| - 1;
      UnusedOnlyShrinks(a[..last], b[..last], owner);
      if k :| 0 <= k < |a| && a[k].owner == owner && !a[k].used && b[k].used {
        if k < last { assert a[..last][k] == a[k] && b[..last][k] == b[k]; }
      }
    }
  }

  lemma StepUnused(sys: Sys, e: Stamped, owner: Owner)
    ensures var a, b := sys.codes, Step(sys, e).codes;
            UnusedOf(b, owner) + IssuedTo(a, owner) <= UnusedOf(a, owner) + IssuedTo(b, owner)
  {
    hide Step;
    StepCodes(sys, e);
    var a, b := sys.codes, Step(sys, e).codes;
    UnusedOnlyShrinks(a, b[..|a|], owner);
    if Creates(sys, e) {
      assert b[..|b| - 1] == b[..|a|];
    } else {
      assert b[..|a|] == b;
    }
  }

  lemma ResetSpendsACode(sys: Sys, email: Email, after: seq<Code>, u: Uid)
    requires !NoneLive(sys.codes, Mailbox(email)) && after == RemoveAccountCodes(Retire(sys.codes, Mailbox(email)), u)
    ensures UnusedOf(after, Mailbox(email)) < UnusedOf(sys.codes, Mailbox(email))
    ensures IssuedTo(after, Mailbox(email)) == IssuedTo(sys.codes, Mailbox(email))
  {
    var k :| 0 <= k < |sys.codes| && IsLive(sys.codes[k], Mailbox(email));
    assert after[k].used;
    UnusedOnlyShrinks(sys.codes, after, Mailbox(email));
  }

  /** Successful resets of a mailbox and its still unused codes together never exceed the codes issued to it. */
  lemma {:induction false} ResetsNeverExceedCodes(run: seq<Stamped>, n: nat, email: Email)
    requires n <= |run|
    ensures ResetCount(run, n, email) + UnusedOf(StateAt(run, n).codes, Mailbox(email))
         <= IssuedTo(StateAt(run, n).codes, Mailbox(email))
  {
    hide Step;
    if n > 0 {
      ResetsNeverExceedCodes(run, n - 1, email);
      var sys, e := StateAt(run, n - 1), run[n - 1];
      StepUnused(sys, e, Mailbox(email));
      if Resets(run, n - 1, email) {
        OnlyMatchesPass(sys, e, e.event.i);
        var u :| Step(sys, e).codes == RemoveAccountCodes(Retire(sys.codes, Mailbox(email)), u);
        ResetSpendsACode(sys, email, Step(sys, e).codes, u);
      }
    }
  }

  /** The reset itself is all or nothing: with it, no code of the mailbox and no action code of the
      account stays usable and exactly that account is signed out; without it, nothing changed. */
  lemma ResetIsAtomic(sys: Sys, i: nat, email: Email, pick: Uid)
    requires i < |sys.requests| && sys.requests[i].Guess? && sys.requests[i].phase.Matched?
    ensures var after := ResetStep(sys, i, email, pick);
            if after.requests[i].phase == Succeeded then
              && NoneLive(after.codes, Mailbox(email))
              && pick in sys.users && sys.users[pick].email == email
              && (forall action :: NoneLive(after.codes, Account(pick, action)))
              && after.users == sys.users[pick := sys.users[pick].(tokenVersion := sys.users[pick].tokenVersion + 1)]
            else after.codes == sys.codes && after.users == sys.users
  {
  }
}

/** Codes against the clock, in any interleaving: nobody gets through with a code that had run out when it was
    looked up, and a code runs out ten minutes after it is made. And what each turn of a request does, exactly. */
module OtpTimes {
  import opened Options
  import opened Otp
  import opened OtpRuns

  ghost predicate Timely(run: seq<Stamped>) {
    forall i, j :: 0 <= i < j < |run| ==> run[i].at <= run[j].at
  }

  // ---- one turn of a guess ------------------------------------------------------------------

  ghost predicate CanBeUsed(codes: seq<Code>, id: int, owner: Owner) {
    0 <= id < |codes| && !codes[id].removed && !codes[id].used && codes[id].owner == owner
  }

  // No code of the owner that can still be used is newer.
  ghost predicate IsLatest(codes: seq<Code>, id: int, owner: Owner) {
    CanBeUsed(codes, id, owner) && forall k: int :: CanBeUsed(codes, k, owner) ==> codes[k].createdAt <= codes[id].createdAt
  }

  // The lookup: the newest usable code, if it has not run out and is good for another attempt.
  ghost predicate LooksUp(sys: Sys, r: Request, r': Request, pick: nat, now: int)
    requires r.Guess?
  {
    if forall k: int :: !CanBeUsed(sys.codes, k, r.owner) then r' == r.(phase := Rejected)
    else if !IsLatest(sys.codes, pick, r.owner) then r' == r
    else if now <= sys.codes[pick].expiresAt && sys.codes[pick].attempts < 5 then r' == r.(phase := Found(pick))
    else r' == r.(phase := Rejected)
  }

  ghost predicate OnlyRow(codes: seq<Code>, codes': seq<Code>, id: nat, c: Code) {
    |codes'| == |codes| && id < |codes| && codes'[id] == c && forall k :: 0 <= k < |codes| && k != id ==> codes'[k] == codes[k]
  }

  // Before comparing, one of five attempts is taken, from a code that is still unused.
  ghost predicate TakesAttempt(sys: Sys, sys': Sys, r: Request, r': Request, id: nat)
    requires r.Guess?
  {
    && sys'.users == sys.users
    && if id < |sys.codes| && !sys.codes[id].removed && !sys.codes[id].used && sys.codes[id].attempts < 5
       then r' == r.(phase := Claimed(id)) && OnlyRow(sys.codes, sys'.codes, id, sys.codes[id].(attempts := sys.codes[id].attempts + 1))
       else r' == r.(phase := Rejected) && sys'.codes == sys.codes
  }

  // An account's code is used up by whoever gets there first.
  ghost predicate UsesUp(sys: Sys, sys': Sys, r: Request, r': Request, id: nat)
    requires r.Guess?
  {
    && sys'.users == sys.users
    && if id < |sys.codes| && !sys.codes[id].removed && !sys.codes[id].used
       then r' == r.(phase := Succeeded) && OnlyRow(sys.codes, sys'.codes, id, sys.codes[id].(used := true))
       else r' == r.(phase := Rejected) && sys'.codes == sys.codes
  }

  // A reset uses up every usable code of the mailbox, takes away the account's codes and signs it out; or does nothing.
  ghost predicate ResetsPassword(sys: Sys, sys': Sys, r: Request, r': Request, email: Email, pick: Uid)
    requires r.Guess?
  {
    if (forall k: int :: !CanBeUsed(sys.codes, k, Mailbox(email))) || (forall u :: u in sys.users ==> sys.users[u].email != email)
    then r' == r.(phase := Rejected) && sys'.codes == sys.codes && sys'.users == sys.users
    else if !(pick in sys.users && sys.users[pick].email == email) then r' == r && sys'.codes == sys.codes && sys'.users == sys.users
    else
      && r' == r.(phase := Succeeded)
      && sys'.users == sys.users[pick := User(email, sys.users[pick].active, sys.users[pick].tokenVersion + 1)]
      && |sys'.codes| == |sys.codes|
      && forall k :: 0 <= k < |sys.codes| ==>
           var c := sys.codes[k];
           sys'.codes[k] == if CanBeUsed(sys.codes, k, Mailbox(email)) then c.(used := true)
                            else if c.owner.Account? && c.owner.user == pick then c.(removed := true) else c
  }

  ghost predicate Guesses(sys: Sys, e: Stamped) {
    e.event.Goes? && e.event.i < |sys.requests| && sys.requests[e.event.i].Guess?
  }

  // What one turn of a guess does: to its own request, to the codes and to the accounts.
  ghost predicate GuessTurn(sys: Sys, sys': Sys, r: Request, r': Request, pick: nat, now: int)
    requires r.Guess?
  {
    match r.phase
    case Start => LooksUp(sys, r, r', pick, now) && sys'.codes == sys.codes && sys'.users == sys.users
    case Found(id) => TakesAttempt(sys, sys', r, r', id)
    case Claimed(id) =>
      && sys'.codes == sys.codes && sys'.users == sys.users
      && r' == if id < |sys.codes| && sys.codes[id].digest == r.guess then r.(phase := Matched(id)) else r.(phase := Rejected)
    case Matched(id) =>
      if r.owner.Mailbox? then ResetsPassword(sys, sys', r, r', r.owner.email, pick) else UsesUp(sys, sys', r, r', id)
    case _ => sys' == sys
  }

  lemma LiveMeans(codes: seq<Code>, owner: Owner)
    ensures NoneLive(codes, owner) <==> forall k: int :: !CanBeUsed(codes, k, owner)
    ensures forall id: nat :: IsNewest(codes, owner, id) <==> IsLatest(codes, id, owner)
  {
    forall k: int ensures CanBeUsed(codes, k, owner) <==> 0 <= k < |codes| && IsLive(codes[k], owner) {}
  }

  /** A guess takes its turns exactly like this, and no other request moves meanwhile. */
  lemma GuessesExactly(sys: Sys, e: Stamped)
    requires Guesses(sys, e)
    ensures var sys', i := Step(sys, e), e.event.i;
            && |sys'.requests| == |sys.requests|
            && (forall k :: 0 <= k < |sys.requests| && k != i ==> sys'.requests[k] == sys.requests[k])
            && GuessTurn(sys, sys', sys.requests[i], sys'.requests[i], e.event.turn.pick, e.at)
  {
    hide IsNewest, NoneLive, IsLatest;
    LiveMeans(sys.codes, sys.requests[e.event.i].owner);
  }

  // ---- one turn of a request for a code -----------------------------------------------------------

  ghost predicate Asks(sys: Sys, e: Stamped) {
    e.event.Goes? && e.event.i < |sys.requests| && sys.requests[e.event.i].Issue?
  }

  ghost predicate WasSentSince(codes: seq<Code>, owner: Owner, since: int) {
    exists k :: 0 <= k < |codes| && codes[k].owner == owner && !codes[k].removed && since < codes[k].createdAt
  }

  // Every usable code of the owner is used up; the others stay.
  ghost predicate RetiresAll(codes: seq<Code>, codes': seq<Code>, owner: Owner) {
    && |codes'| == |codes|
    && forall k :: 0 <= k < |codes| ==> codes'[k] == if CanBeUsed(codes, k, owner) then codes[k].(used := true) else codes[k]
  }

  // A code for a mailbox takes an active account and no other code in the last minute; a code for an account
  // takes the account. The older ones go first, then one new row is made, good for ten minutes.
  ghost predicate AskTurn(sys: Sys, codes': seq<Code>, r: Request, r': Request, digest: Digest, now: int)
    requires r.Issue?
  {
    match r.stage
    case AskedFor =>
      && codes' == sys.codes
      && if r.owner.Mailbox? then
           r' == r.(stage := if exists u :: u in sys.users && sys.users[u].email == r.owner.email && sys.users[u].active then AccountSeen else NotIssued)
         else r' == r.(stage := if r.owner.user in sys.users then CooledDown else NotIssued)
    case AccountSeen =>
      codes' == sys.codes && r' == r.(stage := if WasSentSince(sys.codes, r.owner, now - 60_000) then NotIssued else CooledDown)
    case CooledDown =>
      RetiresAll(sys.codes, codes', r.owner) && r' == r.(stage := OthersRetired(now + 600_000))
    case OthersRetired(expiresAt) =>
      if r.owner.Account? && r.owner.user !in sys.users then codes' == sys.codes && r' == r.(stage := NotIssued)
      else codes' == sys.codes + [Code(r.owner, digest, false, 0, if r.owner.Account? then now + 600_000 else expiresAt, now, false)]
           && r' == r.(stage := Issued)
    case _ => codes' == sys.codes && r' == r
  }

  lemma AsksExactly(sys: Sys, e: Stamped)
    requires Asks(sys, e)
    ensures var sys', i := Step(sys, e), e.event.i;
            && sys'.users == sys.users && |sys'.requests| == |sys.requests|
            && (forall k :: 0 <= k < |sys.requests| && k != i ==> sys'.requests[k] == sys.requests[k])
            && AskTurn(sys, sys'.codes, sys.requests[i], sys'.requests[i], e.event.turn.digest, e.at)
  {
  }

  /** The cleanup takes away exactly the codes that are used or have run out; so does the end of an account with its
      own codes, and nothing else ever takes a code away but a reset. */
  lemma CleansExactly(sys: Sys, e: Stamped)
    requires e.event.CodesCleaned? || e.event.AccountGone?
    ensures var sys' := Step(sys, e);
            && sys'.requests == sys.requests && |sys'.codes| == |sys.codes|
            && sys'.users == (if e.event.AccountGone? then sys.users - {e.event.u} else sys.users)
            && forall k :: 0 <= k < |sys.codes| ==>
                 var c := sys.codes[k];
                 var goes := if e.event.AccountGone? then c.owner.Account? && c.owner.user == e.event.u else c.used || c.expiresAt < e.at;
                 sys'.codes[k] == if goes then c.(removed := true) else c
  {
  }

  // ---- over runs --------------------------------------------------------------------------------

  // The guess `r` has this code in its hands.
  ghost predicate Has(r: Request, id: nat) {
    r.Guess? && (r.phase == Found(id) || r.phase == Claimed(id) || r.phase == Matched(id))
  }

  // Step `m` is request `i` looking up its code and finding `id`.
  ghost predicate FindsAt(run: seq<Stamped>, m: nat, i: nat, id: nat)
    requires m < |run|
  {
    var sys := StateAt(run, m);
    && Guesses(sys, run[m]) && run[m].event.i == i
    && sys.requests[i].phase == Start && i < |StateAt(run, m + 1).requests| && Has(StateAt(run, m + 1).requests[i], id)
  }

  lemma StepMoves(sys: Sys, e: Stamped, i: nat, id: nat)
    requires i < |Step(sys, e).requests| && Has(Step(sys, e).requests[i], id)
    ensures i < |sys.requests|
    ensures Has(sys.requests[i], id) || (Guesses(sys, e) && e.event.i == i && sys.requests[i].phase == Start)
    ensures sys.requests[i].Guess? && sys.requests[i].owner == Step(sys, e).requests[i].owner
            && sys.requests[i].guess == Step(sys, e).requests[i].guess
  {
    if Guesses(sys, e) {
      hide Step, IsLatest, CanBeUsed;
      GuessesExactly(sys, e);
    } else {
      hide GuessStep, CleanUp, RemoveAccountCodes, Retire, SentRecently;
    }
  }

  lemma {:induction false} FoundBefore(run: seq<Stamped>, n: nat, i: nat, id: nat)
    requires n <= |run| && i < |StateAt(run, n).requests| && Has(StateAt(run, n).requests[i], id)
    ensures exists m: nat :: m < n && FindsAt(run, m, i, id)
  {
    hide Step, Has;
    if n > 0 {
      StepMoves(StateAt(run, n - 1), run[n - 1], i, id);
      if Has(StateAt(run, n - 1).requests[i], id) {
        FoundBefore(run, n - 1, i, id);
      } else {
        assert FindsAt(run, n - 1, i, id);
      }
    }
  }

  /** Whoever finds a code finds one that was usable, the newest of its owner, that had not run out and was good
      for another attempt. */
  lemma FindsExactly(run: seq<Stamped>, m: nat, i: nat, id: nat)
    requires m < |run| && FindsAt(run, m, i, id)
    ensures var sys := StateAt(run, m);
            && IsLatest(sys.codes, id, sys.requests[i].owner)
            && run[m].at <= sys.codes[id].expiresAt && sys.codes[id].attempts < 5
  {
    hide Step;
    GuessesExactly(StateAt(run, m), run[m]);
  }

  lemma {:induction false} CodesStay(run: seq<Stamped>, m: nat, n: nat, id: nat)
    requires m <= n <= |run| && id < |StateAt(run, m).codes|
    ensures id < |StateAt(run, n).codes| && SameCode(StateAt(run, m).codes[id], StateAt(run, n).codes[id])
    decreases n
  {
    hide Step;
    if m < n {
      CodesStay(run, m, n - 1, id);
      StepCodes(StateAt(run, n - 1), run[n - 1]);
    }
  }

  lemma {:induction false} GuessStays(run: seq<Stamped>, m: nat, n: nat, i: nat)
    requires m <= n <= |run| && i < |StateAt(run, m).requests|
    ensures i < |StateAt(run, n).requests| && SameRequest(StateAt(run, m).requests[i], StateAt(run, n).requests[i])
    decreases n
  {
    hide Step, SameRequest;
    if m < n {
      GuessStays(run, m, n - 1, i);
      StepKeeps(StateAt(run, n - 1), run[n - 1], i);
      SameOnward(StateAt(run, m).requests[i], StateAt(run, n - 1).requests[i], StateAt(run, n).requests[i]);
    } else {
      SameAtOnce(StateAt(run, m).requests[i]);
    }
  }

  ghost predicate SameRequest(a: Request, b: Request) {
    a.owner == b.owner && (a.Guess? <==> b.Guess?) && (a.Guess? ==> a.guess == b.guess)
  }

  lemma SameOnward(a: Request, b: Request, c: Request)
    requires SameRequest(a, b) && SameRequest(b, c)
    ensures SameRequest(a, c)
  {
  }

  lemma SameAtOnce(a: Request)
    ensures SameRequest(a, a)
  {
  }

  lemma StepKeeps(sys: Sys, e: Stamped, i: nat)
    requires i < |sys.requests|
    ensures i < |Step(sys, e).requests| && SameRequest(sys.requests[i], Step(sys, e).requests[i])
  {
    hide CleanUp, RemoveAccountCodes, Retire, SentRecently, NoneLive, IsNewest, KnownEmail;
  }

  lemma FindsAtMeans(run: seq<Stamped>, m: nat, i: nat, id: nat)
    requires m < |run| && FindsAt(run, m, i, id)
    ensures i < |StateAt(run, m).requests| && id < |StateAt(run, m).codes|
  {
    FindsExactly(run, m, i, id);
  }

  /** Nobody is let through too late: whoever gets through had looked up, at a time when it had not run out, the
      very code that was matched, which was then the newest usable code of exactly that mailbox, or account and
      action; and what was guessed is that code. */
  lemma SuccessIsInTime(run: seq<Stamped>, n: nat, i: nat)
    requires n < |run| && LetsThrough(run, n, i)
    ensures var sys := StateAt(run, n);
            exists m: nat, id: nat :: && m < n && FindsAt(run, m, i, id)
                                      && id < |sys.codes| && run[m].at <= sys.codes[id].expiresAt
                                      && IsLatest(StateAt(run, m).codes, id, sys.requests[i].owner)
                                      && sys.codes[id].digest == sys.requests[i].guess
  {
    hide Step, FindsAt, IsLatest;
    SuccessNeedsTheCode(run, n, i);
    var id := StateAt(run, n).requests[i].phase.id;
    FoundBefore(run, n, i, id);
    var m: nat :| m < n && FindsAt(run, m, i, id);
    FindsAtMeans(run, m, i, id);
    FindsExactly(run, m, i, id);
    GuessStays(run, m, n, i);
    CodesStay(run, m, n, id);
  }

  // ---- ten minutes, and one minute ----------------------------------------------------------------

  // No code outlives its ten minutes, and none is about to be made that would.
  ghost predicate ExpiryOk(sys: Sys, clock: int) {
    && (forall k :: 0 <= k < |sys.codes| ==>
          sys.codes[k].expiresAt <= sys.codes[k].createdAt + 600_000
          && (sys.codes[k].owner.Account? ==> sys.codes[k].expiresAt == sys.codes[k].createdAt + 600_000))
    && (forall k :: 0 <= k < |sys.requests| && sys.requests[k].Issue? && sys.requests[k].stage.OthersRetired? ==>
          sys.requests[k].stage.expiresAt <= clock + 600_000)
  }

  lemma StepKeepsExpiry(sys: Sys, e: Stamped, clock: int)
    requires ExpiryOk(sys, clock) && clock <= e.at
    ensures ExpiryOk(Step(sys, e), e.at)
  {
    if Asks(sys, e) {
      hide Step, RetiresAll;
      AsksExactly(sys, e);
      StepCodes(sys, e);
    } else {
      hide Step;
      StepCodes(sys, e);
      NobodyAsks(sys, e);
    }
  }

  lemma NobodyAsks(sys: Sys, e: Stamped)
    requires !Asks(sys, e)
    ensures var after := Step(sys, e).requests;
            forall k :: 0 <= k < |after| && after[k].Issue? ==>
              after[k].stage == AskedFor || (k < |sys.requests| && after[k] == sys.requests[k])
  {
    hide CleanUp, RemoveAccountCodes, Retire, NoneLive, IsNewest, KnownEmail;
  }

  lemma {:induction false} CodesLiveTenMinutes(run: seq<Stamped>, n: nat)
    requires Timely(run) && 0 < n <= |run|
    ensures ExpiryOk(StateAt(run, n), run[n - 1].at)
  {
    hide Step;
    if n == 1 {
      StepKeepsExpiry(StateAt(run, 0), run[0], run[0].at);
    } else {
      CodesLiveTenMinutes(run, n - 1);
      StepKeepsExpiry(StateAt(run, n - 1), run[n - 1], run[n - 2].at);
    }
  }

  /** So a code that was looked up more than ten minutes after it was made lets nobody through. */
  lemma OldCodesAreUseless(run: seq<Stamped>, n: nat, i: nat)
    requires Timely(run) && n < |run| && LetsThrough(run, n, i)
    ensures exists m: nat, id: nat :: m < n && FindsAt(run, m, i, id) && id < |StateAt(run, n).codes|
                                      && run[m].at <= StateAt(run, n).codes[id].createdAt + 600_000
  {
    hide StateAt, FindsAt, IsLatest, LetsThrough;
    SuccessIsInTime(run, n, i);
    if n > 0 {
      CodesLiveTenMinutes(run, n);
    }
  }

  // Step `m` is request `i` passing the one-minute check.
  ghost predicate CoolsAt(run: seq<Stamped>, m: nat, i: nat)
    requires m < |run|
  {
    var sys := StateAt(run, m);
    && Asks(sys, run[m]) && run[m].event.i == i && sys.requests[i].stage == AccountSeen
    && i < |StateAt(run, m + 1).requests| && StateAt(run, m + 1).requests[i] == sys.requests[i].(stage := CooledDown)
  }

  ghost predicate IsPastCheck(r: Request) {
    r.Issue? && r.owner.Mailbox? && (r.stage == CooledDown || r.stage.OthersRetired?)
  }

  lemma PassesCheck(sys: Sys, e: Stamped, i: nat)
    requires i < |Step(sys, e).requests| && IsPastCheck(Step(sys, e).requests[i])
    ensures i < |sys.requests|
    ensures IsPastCheck(sys.requests[i])
            || (Asks(sys, e) && e.event.i == i && sys.requests[i].stage == AccountSeen
                && Step(sys, e).requests[i] == sys.requests[i].(stage := CooledDown))
  {
    if Asks(sys, e) {
      hide Step, RetiresAll, WasSentSince;
      AsksExactly(sys, e);
    } else {
      hide Step;
      NobodyAsks(sys, e);
    }
  }

  lemma {:induction false} CooledBefore(run: seq<Stamped>, n: nat, i: nat)
    requires n <= |run| && i < |StateAt(run, n).requests| && IsPastCheck(StateAt(run, n).requests[i])
    ensures exists m: nat :: m < n && CoolsAt(run, m, i)
  {
    hide Step;
    if n > 0 {
      PassesCheck(StateAt(run, n - 1), run[n - 1], i);
      if IsPastCheck(StateAt(run, n - 1).requests[i]) {
        CooledBefore(run, n - 1, i);
      } else {
        assert CoolsAt(run, n - 1, i);
      }
    }
  }

  /** Whoever makes a reset code had found, on their way, that no other code was sent to the mailbox in the minute
      before that look. */
  lemma ResetCodesAreSpaced(run: seq<Stamped>, n: nat, i: nat)
    requires n < |run| && Creates(StateAt(run, n), run[n]) && run[n].event.i == i && StateAt(run, n).requests[i].owner.Mailbox?
    ensures exists m: nat :: m < n && CoolsAt(run, m, i)
                             && !WasSentSince(StateAt(run, m).codes, StateAt(run, n).requests[i].owner, run[m].at - 60_000)
  {
    hide StateAt, WasSentSince, CoolsAt;
    CooledBefore(run, n, i);
    var m: nat :| m < n && CoolsAt(run, m, i);
    CoolsMeans(run, m, i);
    GuessStays(run, m, n, i);
  }

  lemma CoolsMeans(run: seq<Stamped>, m: nat, i: nat)
    requires m < |run| && CoolsAt(run, m, i)
    ensures i < |StateAt(run, m).requests|
    ensures !WasSentSince(StateAt(run, m).codes, StateAt(run, m).requests[i].owner, run[m].at - 60_000)
  {
    hide Step, WasSentSince;
    AsksExactly(StateAt(run, m), run[m]);
  }
}

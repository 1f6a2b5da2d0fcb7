/** The code requests as they run when nothing comes between: each is the machine's turns, one after another. */
module OtpStore {
  import opened Options
  import opened Otp

  function NewestOf(codes: seq<Code>, owner: Owner): (id: Option<nat>)
    ensures id.Some? ==> IsNewest(codes, owner, id.value)
    ensures id == None ==> NoneLive(codes, owner)
  {
    if codes == [] then None
    else
      var last := |codes| - 1;
      var best := NewestOf(codes[..last], owner);
      assert forall k :: 0 <= k < last ==> codes[..last][k] == codes[k];
      if IsLive(codes[last], owner) && (best.Some? ==> codes[last].createdAt >= codes[best.value].createdAt) then Some(last)
      else best
  }

  predicate OneGuess(sys: Sys) {
    |sys.requests| == 1 && sys.requests[0].Guess?
  }

  predicate OneIssue(sys: Sys) {
    |sys.requests| == 1 && sys.requests[0].Issue?
  }

  // The first three turns of a guess, without anybody else's: lookup, claim, comparison.
  function CheckAlone(sys: Sys, pick: nat, now: int): (after: Sys)
    requires OneGuess(sys)
    ensures OneGuess(after)
  {
    GuessStep(GuessStep(GuessStep(sys, 0, Turn(pick, 0), now), 0, Turn(pick, 0), now), 0, Turn(pick, 0), now)
  }

  function GuessAlone(sys: Sys, pick: nat, user: Uid, now: int): (after: Sys)
    requires OneGuess(sys)
    ensures OneGuess(after)
  {
    GuessStep(CheckAlone(sys, pick, now), 0, Turn(user, 0), now)
  }

  function CoolAlone(sys: Sys, now: int): (after: Sys)
    requires OneIssue(sys)
    ensures OneIssue(after)
  {
    var asked := IssueStep(sys, 0, Turn(0, 0), now);
    if asked.requests[0].stage.AccountSeen? then IssueStep(asked, 0, Turn(0, 0), now) else asked
  }

  function IssueAlone(sys: Sys, digest: Digest, now: int): (after: Sys)
    requires OneIssue(sys)
    ensures OneIssue(after)
  {
    IssueStep(IssueStep(CoolAlone(sys, now), 0, Turn(0, 0), now), 0, Turn(0, digest), now)
  }

  class Store {
    var codes: seq<Code>
    var users: map<Uid, User>

    constructor (users: map<Uid, User>)
      ensures codes == [] && this.users == users
    {
      codes, this.users := [], users;
    }

    function With(request: Request): Sys
      reads this
    {
      Sys(codes, users, [request])
    }

    // The lookup, the claim of one attempt and the comparison; the matching row, or none.
    method CheckCode(owner: Owner, guess: Digest, now: int) returns (matched: Option<nat>, pick: nat)
      modifies this`codes
      ensures With(Guess(owner, guess, if matched.Some? then Matched(matched.value) else Rejected))
           == CheckAlone(old(With(Guess(owner, guess, Start))), pick, now)
    {
      hide NewestOf;
      pick := 0;
      var newest := NewestOf(codes, owner);
      if newest == None {
        return None, 0;
      }
      pick := newest.value;
      var record := codes[pick];
      if record.expiresAt < now || record.attempts >= MAX_OTP_ATTEMPTS {
        return None, pick;
      }
      codes := codes[pick := record.(attempts := record.attempts + 1)];
      if guess != record.digest {
        return None, pick;
      }
      return Some(pick), pick;
    }

    method ConsumeCode(id: nat) returns (won: bool)
      modifies this`codes
      ensures won == (id < |old(codes)| && !old(codes)[id].removed && !old(codes)[id].used)
      ensures codes == if won then old(codes)[id := old(codes)[id].(used := true)] else old(codes)
    {
      won := id < |codes| && !codes[id].removed && !codes[id].used;
      if won {
        codes := codes[id := codes[id].(used := true)];
      }
    }

    method VerifyAccountCode(user: Uid, action: Action, guess: Digest, now: int) returns (ok: bool, pick: nat)
      modifies this`codes
      ensures With(Guess(Account(user, action), guess, if ok then Succeeded else Rejected))
           == GuessAlone(old(With(Guess(Account(user, action), guess, Start))), pick, 0, now)
    {
      hide IsNewest, NoneLive;
      var matched;
      matched, pick := CheckCode(Account(user, action), guess, now);
      if matched == None {
        return false, pick;
      }
      ok := ConsumeCode(matched.value);
    }

    method ResetPassword(email: Email, guess: Digest, now: int) returns (ok: bool, pick: nat, user: Uid)
      modifies this
      ensures With(Guess(Mailbox(email), guess, if ok then Succeeded else Rejected))
           == GuessAlone(old(With(Guess(Mailbox(email), guess, Start))), pick, user, now)
    {
      hide IsNewest, NoneLive, RemoveAccountCodes, Retire, CheckAlone;
      var matched;
      user := 0;
      matched, pick := CheckCode(Mailbox(email), guess, now);
      if matched == None {
        return false, pick, 0;
      }
      if NoneLive(codes, Mailbox(email)) || !(exists u :: u in users && users[u].email == email) {
        return false, pick, 0;
      }
      user :| user in users && users[user].email == email;
      codes := RemoveAccountCodes(Retire(codes, Mailbox(email)), user);
      users := users[user := users[user].(tokenVersion := users[user].tokenVersion + 1)];
      return true, pick, user;
    }

    method IssueCode(owner: Owner, digest: Digest, now: int) returns (sent: bool)
      modifies this`codes
      ensures With(Issue(owner, if sent then Issued else NotIssued)) == IssueAlone(old(With(Issue(owner, AskedFor))), digest, now)
    {
      hide SentRecently, IsLive;
      if owner.Mailbox? {
        if !(exists u :: u in users && users[u].email == owner.email && users[u].active) || SentRecently(codes, owner, now) {
          return false;
        }
      } else if owner.user !in users {
        return false;
      }
      codes := Retire(codes, owner);
      codes := codes + [Code(owner, digest, false, 0, now + OTP_TTL_MS, now, false)];
      return true;
    }
  }

  /** With nobody else about, a code is sent exactly if the account exists and, for a reset, is active and was sent
      none in the last minute; the owner's older codes are then used up, and one good for ten minutes is added. */
  lemma IssuesExactly(sys: Sys, owner: Owner, digest: Digest, now: int)
    requires sys.requests == [Issue(owner, AskedFor)]
    ensures var after := IssueAlone(sys, digest, now);
            && after.users == sys.users
            && after.requests == [Issue(owner, if MaySend(sys, owner, now) then Issued else NotIssued)]
            && if MaySend(sys, owner, now)
               then after.codes[..|after.codes| - 1] == UsedUp(sys.codes, owner)
                    && after.codes[|sys.codes|..] == [Code(owner, digest, false, 0, now + 600_000, now, false)]
               else after.codes == sys.codes
  {
    assert Retire(sys.codes, owner) == UsedUp(sys.codes, owner);
    assert SentRecently(sys.codes, owner, now)
      <==> exists k :: 0 <= k < |sys.codes| && sys.codes[k].owner == owner && !sys.codes[k].removed && now < sys.codes[k].createdAt + 60_000;
  }

  ghost predicate MaySend(sys: Sys, owner: Owner, now: int) {
    match owner
    case Mailbox(email) =>
      && (exists u :: u in sys.users && sys.users[u].email == email && sys.users[u].active)
      && forall k :: 0 <= k < |sys.codes| && sys.codes[k].owner == owner && !sys.codes[k].removed ==> sys.codes[k].createdAt + 60_000 <= now
    case Account(user, _) => user in sys.users
  }

  ghost function UsedUp(codes: seq<Code>, owner: Owner): seq<Code> {
    seq(|codes|, k requires 0 <= k < |codes| => if codes[k].owner == owner && !codes[k].removed then codes[k].(used := true) else codes[k])
  }

  /** With nobody else about, a code that was just issued and is guessed right goes through the first
      time within its ten minutes, and never a second time; a reset signs out exactly that account. */
  lemma FreshCodeWorksOnce(sys: Sys, owner: Owner, digest: Digest, issuedAt: int, now: int, again: int, user: Uid)
    requires sys.requests == [Issue(owner, AskedFor)] && IssueAlone(sys, digest, issuedAt).requests[0].stage == Issued
    requires issuedAt <= now <= issuedAt + 600_000
    requires owner.Mailbox? ==> user in sys.users && sys.users[user].email == owner.email
    ensures var issued := IssueAlone(sys, digest, issuedAt);
            var first := GuessAlone(issued.(requests := [Guess(owner, digest, Start)]), |sys.codes|, user, now);
            && first.requests[0].phase == Succeeded
            && first.users == (if owner.Mailbox? then sys.users[user := sys.users[user].(tokenVersion := sys.users[user].tokenVersion + 1)]
                               else sys.users)
            && forall pick, guess, u ::
                 GuessAlone(first.(requests := [Guess(owner, guess, Start)]), pick, u, again).requests[0].phase == Rejected
  {
    hide IssueAlone, GuessAlone;
    var issued := IssueAlone(sys, digest, issuedAt);
    var id := |sys.codes|;
    IssuedCodes(sys, owner, digest, issuedAt);
    OnlyTheNewOne(sys.codes, owner, issued.codes[id]);
    RightGuessSucceeds(issued.(requests := [Guess(owner, digest, Start)]), id, user, now);
    var first := GuessAlone(issued.(requests := [Guess(owner, digest, Start)]), id, user, now);
    forall pick, guess, u
      ensures GuessAlone(first.(requests := [Guess(owner, guess, Start)]), pick, u, again).requests[0].phase == Rejected
    {
      NothingLeftToGuess(first.(requests := [Guess(owner, guess, Start)]), pick, u, again);
    }
  }

  /** Later than ten minutes after it was issued, a code lets nobody through and changes nothing, right or not. */
  lemma LateGuessIsRejected(sys: Sys, owner: Owner, digest: Digest, issuedAt: int, now: int, guess: Digest, user: Uid)
    requires sys.requests == [Issue(owner, AskedFor)] && IssueAlone(sys, digest, issuedAt).requests[0].stage == Issued
    requires now > issuedAt + 600_000
    ensures var issued := IssueAlone(sys, digest, issuedAt);
            GuessAlone(issued.(requests := [Guess(owner, guess, Start)]), |sys.codes|, user, now)
            == issued.(requests := [Guess(owner, guess, Rejected)])
  {
    hide IssueAlone, GuessAlone;
    var issued := IssueAlone(sys, digest, issuedAt);
    IssuedCodes(sys, owner, digest, issuedAt);
    OnlyTheNewOne(sys.codes, owner, issued.codes[|sys.codes|]);
    OldCodeIsRejected(issued.(requests := [Guess(owner, guess, Start)]), |sys.codes|, user, now);
  }

  // A code that has run out, or five attempts, is of no use whatever is guessed.
  lemma OldCodeIsRejected(sys: Sys, id: nat, user: Uid, now: int)
    requires OneGuess(sys) && sys.requests[0].phase == Start
    requires IsNewest(sys.codes, sys.requests[0].owner, id) && (sys.codes[id].expiresAt < now || sys.codes[id].attempts >= 5)
    ensures GuessAlone(sys, id, user, now) == sys.(requests := [sys.requests[0].(phase := Rejected)])
  {
    assert !NoneLive(sys.codes, sys.requests[0].owner);
  }

  lemma IssuedCodes(sys: Sys, owner: Owner, digest: Digest, now: int)
    requires sys.requests == [Issue(owner, AskedFor)] && IssueAlone(sys, digest, now).requests[0].stage == Issued
    ensures IssueAlone(sys, digest, now).codes
         == Retire(sys.codes, owner) + [Code(owner, digest, false, 0, now + 600_000, now, false)]
    ensures IssueAlone(sys, digest, now).users == sys.users
  {
  }

  // Issuing retires the others: of the owner's codes only the new one is live.
  lemma OnlyTheNewOne(codes: seq<Code>, owner: Owner, c: Code)
    requires IsLive(c, owner)
    ensures var after := Retire(codes, owner) + [c];
            && IsNewest(after, owner, |codes|)
            && forall k :: 0 <= k < |after| ==> (IsLive(after[k], owner) <==> k == |codes|)
  {
  }

  lemma RightGuessSucceeds(sys: Sys, id: nat, user: Uid, now: int)
    requires OneGuess(sys) && sys.requests[0].phase == Start
    requires id < |sys.codes| && sys.codes[id].attempts == 0 && sys.codes[id].expiresAt >= now
    requires sys.codes[id].digest == sys.requests[0].guess
    requires forall k :: 0 <= k < |sys.codes| ==> (IsLive(sys.codes[k], sys.requests[0].owner) <==> k == id)
    requires sys.requests[0].owner.Mailbox? ==> HasEmail(sys.users, user, sys.requests[0].owner.email)
    ensures var after := GuessAlone(sys, id, user, now);
            && after.requests[0].phase == Succeeded && NoneLive(after.codes, sys.requests[0].owner)
            && after.users == (if sys.requests[0].owner.Mailbox?
                               then sys.users[user := sys.users[user].(tokenVersion := sys.users[user].tokenVersion + 1)] else sys.users)
  {
    hide RemoveAccountCodes, Retire, GuessStep, CheckAlone;
    RightCheck(sys, id, now);
    LastTurn(CheckAlone(sys, id, now), id, user, now);
  }

  lemma RightCheck(sys: Sys, id: nat, now: int)
    requires OneGuess(sys) && sys.requests[0].phase == Start
    requires id < |sys.codes| && sys.codes[id].attempts == 0 && sys.codes[id].expiresAt >= now
    requires sys.codes[id].digest == sys.requests[0].guess
    requires forall k :: 0 <= k < |sys.codes| ==> (IsLive(sys.codes[k], sys.requests[0].owner) <==> k == id)
    ensures CheckAlone(sys, id, now)
         == sys.(codes := sys.codes[id := sys.codes[id].(attempts := 1)], requests := [sys.requests[0].(phase := Matched(id))])
  {
    var r := sys.requests[0];
    assert IsNewest(sys.codes, r.owner, id) && !NoneLive(sys.codes, r.owner);
    assert sys.requests == [r];
    hide IsNewest, NoneLive;
    var found := GuessStep(sys, 0, Turn(id, 0), now);
    assert found == sys.(requests := [r.(phase := Found(id))]);
    var claimed := GuessStep(found, 0, Turn(id, 0), now);
    assert claimed == sys.(codes := sys.codes[id := sys.codes[id].(attempts := 1)], requests := [r.(phase := Claimed(id))]);
    var compared := GuessStep(claimed, 0, Turn(id, 0), now);
    assert compared == claimed.(requests := [r.(phase := Matched(id))]);
  }

  lemma LastTurn(sys: Sys, id: nat, user: Uid, now: int)
    requires OneGuess(sys) && sys.requests[0].phase == Matched(id) && id < |sys.codes|
    requires forall k :: 0 <= k < |sys.codes| ==> (IsLive(sys.codes[k], sys.requests[0].owner) <==> k == id)
    requires sys.requests[0].owner.Mailbox? ==> HasEmail(sys.users, user, sys.requests[0].owner.email)
    ensures var after := GuessStep(sys, 0, Turn(user, 0), now);
            && after.requests[0].phase == Succeeded && NoneLive(after.codes, sys.requests[0].owner)
            && after.users == (if sys.requests[0].owner.Mailbox?
                               then sys.users[user := sys.users[user].(tokenVersion := sys.users[user].tokenVersion + 1)] else sys.users)
  {
    var owner := sys.requests[0].owner;
    assert IsLive(sys.codes[id], owner);
    if owner.Mailbox? {
      assert !NoneLive(sys.codes, owner) && KnownEmail(sys.users, owner.email);
      assert NoneLive(RemoveAccountCodes(Retire(sys.codes, owner), user), owner);
    } else {
      assert NoneLive(sys.codes[id := sys.codes[id].(used := true)], owner);
    }
  }

  lemma NothingLeftToGuess(sys: Sys, pick: nat, user: Uid, now: int)
    requires OneGuess(sys) && sys.requests[0].phase == Start
    requires NoneLive(sys.codes, sys.requests[0].owner)
    ensures GuessAlone(sys, pick, user, now).requests[0].phase == Rejected
  {
  }
}

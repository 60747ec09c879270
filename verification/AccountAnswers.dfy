/** When each answer of the account operations is given, from the calls of a history alone. */
module AccountAnswers {
  import opened Wrappers
  import opened AuthErrors
  import opened Attempts
  import opened Opaque
  import opened Accounts
  import opened AuthenticationService
  import opened AccountHistory
  import opened TokenHistory

  // ---- Registration ----------------------------------------------------------------------------

  /** The call makes an account for the address, if it has none: it gets as far as the first store call. */
  predicate Enrols(p: Passwords, call: Call, email: string) {
    && call.Registering? && call.admitted == Register && call.email == email
    && !IsBad(p, call.password) && call.salt.Some? && call.up >= 1
  }

  predicate IsTaken(p: Passwords, calls: seq<Call>, email: string) {
    exists j :: 0 <= j < |calls| && Enrols(p, calls[j], email)
  }

  predicate HasAddress(users: seq<UserRecord>, email: string) {
    exists i :: 0 <= i < |users| && users[i].email == email
  }

  lemma AddressIsFound(users: seq<UserRecord>, email: string)
    ensures UserAt(users, email).Some? <==> HasAddress(users, email)
  {
    if UserAt(users, email).Some? {
      assert users[UserAt(users, email).value].email == email;
    }
  }

  lemma KeptAddresses(users: seq<UserRecord>, after: seq<UserRecord>, email: string)
    requires UsersExtend(users, after) && |after| == |users|
    ensures HasAddress(after, email) <==> HasAddress(users, email)
  {
    if i :| 0 <= i < |users| && users[i].email == email {
      assert UserKept(users[i], after[i]) && after[i].email == email;
    }
    if i :| 0 <= i < |after| && after[i].email == email {
      assert UserKept(users[i], after[i]) && users[i].email == email;
    }
  }

  lemma NewAddress(users: seq<UserRecord>, user: UserRecord, email: string)
    ensures HasAddress(users + [user], email) <==> HasAddress(users, email) || user.email == email
  {
    assert (users + [user])[|users|] == user;
    if i :| 0 <= i < |users| && users[i].email == email {
      assert (users + [user])[i].email == email;
    }
  }

  lemma EnrollingTakes(p: Passwords, s: State, call: Call, email: string)
    requires UsersInv(s.users)
    ensures HasAddress(Step(p, s, call).0.users, email) <==> HasAddress(s.users, email) || Enrols(p, call, email)
  {
    var t := Step(p, s, call).0;
    StepKeepsUsers(p, s, call);
    if call.Registering? {
      AddressIsFound(s.users, call.email);
      NewAddress(s.users, NewUser(s.users, call.email), email);
      assert t.users == s.users || t.users == s.users + [NewUser(s.users, call.email)];
    } else {
      UsersStayAsMany(p, s, call);
      KeptAddresses(s.users, t.users, email);
    }
  }

  lemma UsersStayAsMany(p: Passwords, s: State, call: Call)
    requires UsersInv(s.users) && !call.Registering?
    ensures |Step(p, s, call).0.users| == |s.users|
  {
    if call.Confirming? {
      ConfirmingOnlyMarks(p, s, call);
    }
  }

  /** An address has an account exactly if some registration for it got as far as its first store call. */
  lemma {:induction false} AddressIsTakenExactly(p: Passwords, calls: seq<Call>, email: string)
    ensures HasAddress(After(p, calls).users, email) <==> IsTaken(p, calls, email)
  {
    if calls != [] {
      var prefix, call := calls[..|calls| - 1], calls[|calls| - 1];
      AddressIsTakenExactly(p, prefix, email);
      UsersHold(p, prefix);
      EnrollingTakes(p, After(p, prefix), call, email);
      if j :| 0 <= j < |prefix| && Enrols(p, prefix[j], email) {
        assert Enrols(p, calls[j], email);
      }
    }
  }

  /**
   * What a registration is answered: a password that is blocked, or too short or long once normalised, is rejected
   * whatever else holds; an address is taken if an earlier registration for it reached the store.
   */
  lemma RegistrationIsAnsweredExactly(p: Passwords, calls: seq<Call>, call: Call)
    requires call.Registering?
    ensures Step(p, After(p, calls), call).1 == Registered(
      if call.admitted != Register then Err(Refused(PolicyMisconfigured))
      else if IsBad(p, call.password) then Err(Refused(PasswordRejected))
      else if call.salt.None? then Err(Refused(EntropyUnavailable))
      else if call.up == 0 then Err(Storage)
      else if IsTaken(p, calls, call.email) then Ok(AlreadyRegistered)
      else if call.up == 1 then Err(Storage)
      else Ok(Created(|After(p, calls).users| + 1)))
  {
    AddressIsTakenExactly(p, calls, call.email);
    AddressIsFound(After(p, calls).users, call.email);
  }

  /** A reset answers that the password was rejected exactly if it spent a token and the password is bad. */
  lemma ResetRejectsExactly(p: Passwords, s: State, call: Call)
    requires call.Resetting?
    ensures Step(p, s, call).1 == WasReset(Err(Refused(PasswordRejected))) <==>
      SpentBy(s, call).Some? && IsBad(p, call.password)
  {
  }

  /** Whatever is in the book was acceptable when it was set. */
  lemma {:induction false} TheBookHasNoBadPassword(p: Passwords, calls: seq<Call>, email: string)
    requires email in BookAfter(p, calls).passwords
    ensures var password := BookAfter(p, calls).passwords[email];
      !p.blocked(password) && p.minimum <= |p.normalise(password)| <= p.maximum
  {
    var prefix, call := calls[..|calls| - 1], calls[|calls| - 1];
    var before, after := BookAfter(p, prefix).passwords, BookAfter(p, calls).passwords;
    if email in before && after[email] == before[email] {
      TheBookHasNoBadPassword(p, prefix, email);
    } else {
      SettingIsOfAGoodPassword(p, After(p, prefix), BookAfter(p, prefix), call, email);
    }
  }

  lemma SettingIsOfAGoodPassword(p: Passwords, s: State, book: Book, call: Call, email: string)
    requires email in BookStep(book, call, Step(p, s, call).1).passwords
    requires email in book.passwords ==>
      BookStep(book, call, Step(p, s, call).1).passwords[email] != book.passwords[email]
    ensures !IsBad(p, BookStep(book, call, Step(p, s, call).1).passwords[email])
  {
  }

  // ---- Login -----------------------------------------------------------------------------------

  /**
   * What a login is answered, after any serial history. An unknown address, an account that has no password, and a
   * wrong password are one answer.
   */
  lemma LoginIsAnsweredExactly(
      p: Passwords, calls: seq<Call>, email: string, password: string, absent: Option<UserId>, up: nat)
    requires Ideal(p)
    ensures var s, book := After(p, calls), BookAfter(p, calls);
      var r := LogInWith(p, s.users, s.credentials, email, password, absent, up);
      if up == 0 || (up == 1 && absent.Some?) then r == Err(Storage)
      else if absent.None? then r == Err(Refused(EntropyUnavailable))
      else if email in book.passwords && p.normalise(password) == p.normalise(book.passwords[email]) then
        r.Ok? && r.value.user in book.owners && book.owners[r.value.user] == email && !r.value.mustChangePassword
      else r == Err(Refused(InvalidCredentials))
  {
    LoginRefinesTheBook(p, calls, email, password, absent, up);
  }

  // ---- Sending ---------------------------------------------------------------------------------

  lemma SendIsAnsweredExactly(p: Passwords, calls: seq<Call>, call: Call)
    requires call.Sending?
    ensures Step(p, After(p, calls), call).1 == Sent(
      if call.admitted != (if call.purpose == ForVerification then VerificationResend else AttemptFlow.ForgotPassword)
      then Err(Refused(PolicyMisconfigured))
      else if call.up == 0 then Err(Storage)
      else if !IsTaken(p, calls, call.email) then Ok(NoAccount)
      else if call.up == 1 then Err(Storage)
      else if call.secret.None? then Err(Refused(EntropyUnavailable))
      else if call.up == 2 then Err(Storage)
      else Ok(if call.mailUp then Delivered else DeliveryFailed))
  {
    AddressIsTakenExactly(p, calls, call.email);
    AddressIsFound(After(p, calls).users, call.email);
  }

  /** What the service mails for a call, given its reply. */
  function MailOf(call: Call, reply: Reply): seq<OutgoingMail>
    requires call.Sending? && reply.Sent?
  {
    MailedBy(reply.dispatch, KindOf(call.purpose), call.email, call.secret)
  }

  /** The row is the one unconsumed row of its owner. */
  predicate IsSoleUnconsumed(rows: seq<MailedToken>, n: nat) {
    && n < |rows| && rows[n].consumedAt.None?
    && forall i :: 0 <= i < |rows| && i != n && rows[i].owner == rows[n].owner ==> rows[i].consumedAt.Some?
  }

  predicate MailsTheRow(users: seq<UserRecord>, mail: OutgoingMail, row: MailedToken, call: Call)
    requires call.Sending?
  {
    && mail.kind == mail.secret.kind == (if call.purpose == ForVerification then Verification else PasswordReset)
    && mail.to == call.email && call.secret == Some(mail.secret.bytes)
    && row.digest == DigestOf(mail.secret.kind, mail.secret.bytes) && row.expiresAt == call.now + call.lifetime
    && exists i :: 0 <= i < |users| && users[i].email == mail.to && users[i].id == row.owner
  }

  /**
   * A delivered send mails one message, to the account's address, with the secret whose digest the account's one
   * unconsumed row has, a row that expires the lifetime later. Any other answer mails nothing.
   */
  lemma DeliveredSendMailsTheLiveToken(p: Passwords, calls: seq<Call>, call: Call)
    requires call.Sending?
    ensures var (t, reply) := Step(p, After(p, calls), call);
      var mails, rows := MailOf(call, reply), TokensOf(t, call.purpose);
      if reply == Sent(Ok(Delivered))
      then |mails| == 1 && IsSoleUnconsumed(rows, |rows| - 1) && MailsTheRow(t.users, mails[0], rows[|rows| - 1], call)
      else mails == []
  {
    var s := After(p, calls);
    var (t, reply) := Step(p, s, call);
    if reply == Sent(Ok(Delivered)) {
      SerialSendLeavesOneLiveToken(p, s, call);
      var i := UserAt(s.users, call.email).value;
      assert t.users[i].email == call.email;
    }
  }

  // ---- Confirmation ----------------------------------------------------------------------------

  /** The call confirms the account. */
  predicate Confirms(p: Passwords, s: State, call: Call, id: UserId) {
    call.Confirming? && Step(p, s, call).1 == Confirmed(Ok(id))
  }

  predicate ConfirmedAt(p: Passwords, calls: seq<Call>, j: nat, id: UserId) {
    j < |calls| && Confirms(p, After(p, calls[..j]), calls[j], id)
  }

  /** Call `j` was the first to confirm the account, at `at`. */
  predicate FirstConfirmedAt(p: Passwords, calls: seq<Call>, j: nat, id: UserId, at: int) {
    ConfirmedAt(p, calls, j, id) && calls[j].now == at && forall k: nat :: k < j ==> !ConfirmedAt(p, calls, k, id)
  }

  ghost predicate VerifiedSince(p: Passwords, calls: seq<Call>, id: UserId, verifiedAt: Option<int>) {
    match verifiedAt
    case None => forall j: nat :: !ConfirmedAt(p, calls, j, id)
    case Some(at) => exists j: nat :: FirstConfirmedAt(p, calls, j, id, at)
  }

  lemma ConfirmedOneLater(p: Passwords, prefix: seq<Call>, call: Call, j: nat, id: UserId)
    ensures ConfirmedAt(p, prefix + [call], j, id) <==>
      if j == |prefix| then Confirms(p, After(p, prefix), call, id) else ConfirmedAt(p, prefix, j, id)
  {
    assert (prefix + [call])[..|prefix|] == prefix;
    assert j <= |prefix| ==> (prefix + [call])[..j] == prefix[..j];
  }

  lemma VerifiedSinceNext(p: Passwords, prefix: seq<Call>, call: Call, id: UserId, before: Option<int>)
    requires VerifiedSince(p, prefix, id, before)
    ensures VerifiedSince(p, prefix + [call], id,
      if before.None? && Confirms(p, After(p, prefix), call, id) then Some(call.now) else before)
  {
    forall j: nat
      ensures ConfirmedAt(p, prefix + [call], j, id) <==>
        if j == |prefix| then Confirms(p, After(p, prefix), call, id) else ConfirmedAt(p, prefix, j, id)
    {
      ConfirmedOneLater(p, prefix, call, j, id);
    }
    if before.Some? {
      var j: nat :| FirstConfirmedAt(p, prefix, j, id, before.value);
      assert FirstConfirmedAt(p, prefix + [call], j, id, before.value);
    } else if Confirms(p, After(p, prefix), call, id) {
      assert FirstConfirmedAt(p, prefix + [call], |prefix|, id, call.now);
    }
  }

  lemma ConfirmedIsKnown(p: Passwords, calls: seq<Call>, call: Call, id: UserId)
    requires Confirms(p, After(p, calls), call, id)
    ensures 1 <= id <= |After(p, calls).users|
  {
    RepliesTellSpending(p, After(p, calls), call);
    SpentOwnerHasAnAccount(p, calls, call);
  }

  lemma ConfirmingVerifiesOnly(p: Passwords, s: State, call: Call, id: UserId)
    requires UsersInv(s.users) && call.Confirming? && 1 <= id <= |s.users|
    ensures var users := Step(p, s, call).0.users;
      && |users| == |s.users|
      && users[id - 1].verifiedAt
         == if s.users[id - 1].verifiedAt.None? && Confirms(p, s, call, id) then Some(call.now)
            else s.users[id - 1].verifiedAt
  {
    ConfirmingOnlyMarks(p, s, call);
    var reply := Step(p, s, call).1.verified;
    if reply.Ok? {
      MarkingKeepsUsers(s.users, reply.value, call.now);
    }
  }

  /** A call other than a confirmation leaves every account as it was, and a new one unverified. */
  lemma NothingElseVerifies(p: Passwords, s: State, call: Call, id: UserId)
    requires !call.Confirming? && 1 <= id <= |Step(p, s, call).0.users|
    ensures Step(p, s, call).0.users[id - 1].verifiedAt
      == if id <= |s.users| then s.users[id - 1].verifiedAt else None
  {
  }

  lemma {:induction false} NobodyConfirmsTheUnknown(p: Passwords, calls: seq<Call>, id: UserId)
    requires id > |After(p, calls).users|
    ensures VerifiedSince(p, calls, id, None)
  {
    if calls != [] {
      var prefix, call := calls[..|calls| - 1], calls[|calls| - 1];
      assert calls == prefix + [call];
      UsersHold(p, prefix);
      StepKeepsUsers(p, After(p, prefix), call);
      NobodyConfirmsTheUnknown(p, prefix, id);
      if Confirms(p, After(p, prefix), call, id) {
        ConfirmedIsKnown(p, prefix, call, id);
      }
      VerifiedSinceNext(p, prefix, call, id, None);
    }
  }

  /** An account is verified exactly since the first call that confirmed it; nothing else verifies it. */
  lemma {:induction false} VerifiedExactlySinceConfirmed(p: Passwords, calls: seq<Call>, id: UserId)
    requires 1 <= id <= |After(p, calls).users|
    ensures VerifiedSince(p, calls, id, After(p, calls).users[id - 1].verifiedAt)
  {
    var prefix, call := calls[..|calls| - 1], calls[|calls| - 1];
    assert calls == prefix + [call];
    var s := After(p, prefix);
    UsersHold(p, prefix);
    if call.Confirming? {
      ConfirmingOnlyMarks(p, s, call);
      ConfirmingVerifiesOnly(p, s, call, id);
    } else {
      NothingElseVerifies(p, s, call, id);
    }
    if id <= |s.users| {
      VerifiedExactlySinceConfirmed(p, prefix, id);
      VerifiedSinceNext(p, prefix, call, id, s.users[id - 1].verifiedAt);
    } else {
      NobodyConfirmsTheUnknown(p, prefix, id);
      VerifiedSinceNext(p, prefix, call, id, None);
    }
  }
}

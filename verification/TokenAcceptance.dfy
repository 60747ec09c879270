/** Exactly when a mailed token is accepted, from the calls of a history alone. */
module TokenAcceptance {
  import opened Wrappers
  import opened Bytes
  import opened AuthErrors
  import opened Attempts
  import opened Opaque
  import opened Accounts
  import opened AuthenticationService
  import opened AccountHistory
  import opened TokenHistory

  /** A token as it was mailed: what for, its secret, to which address, and the instant its lifetime ends. */
  datatype Token = Token(purpose: Purpose, secret: Bytes32, email: string, expiresAt: int)

  /** An admitted call that presents the token, and whose first store call succeeds. */
  predicate Presents(call: Call, t: Token) {
    match t.purpose
    case ForVerification =>
      && call.Confirming? && call.admitted == VerificationComplete && call.up >= 1
      && call.presented == Wire(Opaque(Verification, t.secret))
    case ForReset =>
      && call.Resetting? && call.admitted == AttemptFlow.ResetPassword && call.up >= 1
      && call.presented == Wire(Opaque(PasswordReset, t.secret))
  }

  /** An admitted call that sends another such token to the address, and gets as far as sweeping the earlier ones. */
  predicate Sweeps(call: Call, t: Token) {
    && call.Sending? && call.purpose == t.purpose && call.email == t.email && call.up >= 2
    && call.admitted == if t.purpose == ForVerification then VerificationResend else AttemptFlow.ForgotPassword
  }

  /** The call leaves the token spent, if it was not. */
  predicate Ends(call: Call, t: Token) {
    Sweeps(call, t) || (Presents(call, t) && call.now < t.expiresAt)
  }

  /** The instant at which the call leaves the token spent, if it does. */
  function EndedAt(call: Call, t: Token): Option<int> {
    if Ends(call, t) then Some(call.now) else None
  }

  function NoLongerValid(purpose: Purpose): Reply {
    match purpose
    case ForVerification => Confirmed(Err(Refused(CredentialNoLongerValid)))
    case ForReset => WasReset(Err(Refused(CredentialNoLongerValid)))
  }

  /** What an accepted token is answered, by what happens after it is spent. */
  predicate AcceptedAs(p: Passwords, call: Call, owner: UserId, reply: Reply) {
    match call
    case Confirming(_, _, _, up) => reply == Confirmed(if up == 1 then Err(Storage) else Ok(owner))
    case Resetting(_, _, password, salt, _, up) =>
      reply == WasReset(
        if IsBad(p, password) then Err(Refused(PasswordRejected))
        else if salt.None? then Err(Refused(EntropyUnavailable))
        else if up == 1 then Err(Storage)
        else Ok(owner))
    case _ => false
  }

  // ---- One row through one step ----------------------------------------------------------------

  /** Row `k` is the token's, and no other row carries its digest. */
  predicate Holds(s: State, t: Token, k: nat) {
    var rows := TokensOf(s, t.purpose);
    && UsersInv(s.users) && DigestsDiffer(rows) && k < |rows|
    && rows[k].digest == Digest(Opaque(KindOf(t.purpose), t.secret)) && rows[k].expiresAt == t.expiresAt
    && rows[k].owner >= 1 && UserAt(s.users, t.email) == Some(rows[k].owner - 1)
  }

  predicate Unspent(s: State, t: Token, k: nat)
    requires Holds(s, t, k)
  {
    TokensOf(s, t.purpose)[k].consumedAt.None?
  }

  lemma PresentedIsParsed(call: Call, t: Token)
    requires Presents(call, t)
    ensures Parsed(KindOf(t.purpose), call.presented) == Some(Opaque(KindOf(t.purpose), t.secret))
  {
    WireRoundTrip(KindOf(t.purpose), call.presented, Opaque(KindOf(t.purpose), t.secret));
  }

  /** Presented, the token is found exactly if it is unspent and its lifetime is not over. */
  lemma PresentedIsFound(s: State, t: Token, k: nat, now: int)
    requires Holds(s, t, k)
    ensures ConsumableAt(TokensOf(s, t.purpose), Digest(Opaque(KindOf(t.purpose), t.secret)), now)
      == if Unspent(s, t, k) && now < t.expiresAt then Some(k) else None
  {
    var i := ConsumableAt(TokensOf(s, t.purpose), Digest(Opaque(KindOf(t.purpose), t.secret)), now);
    assert i.Some? ==> i.value == k;
  }

  /** Another token's presentation finds another row. */
  lemma OtherIsNotFound(s: State, t: Token, k: nat, digest: SecretDigest, now: int)
    requires Holds(s, t, k) && digest != Digest(Opaque(KindOf(t.purpose), t.secret))
    ensures ConsumableAt(TokensOf(s, t.purpose), digest, now) != Some(k)
  {
  }

  /** The step stamps the row at this instant, if at all, and only if it had no stamp. */
  predicate SpendsRow(s: State, s': State, t: Token, k: nat, at: Option<int>)
    requires Holds(s, t, k)
  {
    var stamp := TokensOf(s, t.purpose)[k].consumedAt;
    k < |TokensOf(s', t.purpose)| && TokensOf(s', t.purpose)[k].consumedAt == if stamp.None? then at else stamp
  }

  lemma SendingOnRow(p: Passwords, s: State, call: Call, t: Token, k: nat)
    requires Holds(s, t, k) && call.Sending?
    ensures SpendsRow(s, Step(p, s, call).0, t, k, EndedAt(call, t))
  {
    if call.purpose == t.purpose {
      var i := UserAt(s.users, call.email);
      assert i.Some? ==> s.users[i.value].id == i.value + 1;
      assert i.Some? && call.email != t.email ==> i.value + 1 != TokensOf(s, t.purpose)[k].owner;
    }
  }

  lemma PresentingOnRow(p: Passwords, s: State, call: Call, t: Token, k: nat)
    requires Holds(s, t, k) && Presents(call, t)
    ensures SpendsRow(s, Step(p, s, call).0, t, k, EndedAt(call, t))
  {
    PresentedIsFound(s, t, k, call.now);
    PresentedIsParsed(call, t);
  }

  lemma PresentingOtherwiseOnRow(p: Passwords, s: State, call: Call, t: Token, k: nat)
    requires Holds(s, t, k) && !Presents(call, t) && (call.Confirming? || call.Resetting?)
    ensures SpendsRow(s, Step(p, s, call).0, t, k, None)
  {
    var kind := KindOf(t.purpose);
    WireRoundTrip(kind, call.presented, Opaque(kind, t.secret));
    var secret := Parsed(kind, call.presented);
    if secret.Some? && secret.value != Opaque(kind, t.secret) {
      OtherIsNotFound(s, t, k, Digest(secret.value), call.now);
    }
  }

  lemma StepOnRow(p: Passwords, s: State, call: Call, t: Token, k: nat)
    requires Holds(s, t, k)
    ensures SpendsRow(s, Step(p, s, call).0, t, k, EndedAt(call, t))
  {
    if call.Sending? {
      SendingOnRow(p, s, call, t, k);
    } else if Presents(call, t) {
      PresentingOnRow(p, s, call, t, k);
    } else if !call.Registering? {
      PresentingOtherwiseOnRow(p, s, call, t, k);
    }
  }

  // ---- The row through a history ---------------------------------------------------------------

  /** Call `i` mailed the token, or would have but for its transport. */
  predicate Mailed(p: Passwords, calls: seq<Call>, i: nat, t: Token) {
    && i < |calls| && Issues(p, calls, i, t.purpose, t.secret, t.email)
    && t.expiresAt == calls[i].now + calls[i].lifetime
  }

  /** No call between `i` and `n` has swept or spent the token. */
  predicate NothingEnds(calls: seq<Call>, i: nat, n: nat, t: Token)
    requires n <= |calls|
  {
    forall j :: i < j < n ==> !Ends(calls[j], t)
  }

  /** The stamp is the instant of the first call after `i` that ended the token. */
  predicate StampIs(calls: seq<Call>, i: nat, n: nat, t: Token, stamp: Option<int>)
    requires n <= |calls|
  {
    match stamp
    case None => NothingEnds(calls, i, n, t)
    case Some(at) => exists j :: i < j < n && EndedAt(calls[j], t) == Some(at) && NothingEnds(calls, i, j, t)
  }

  lemma StampIsNext(calls: seq<Call>, i: nat, n: nat, m: nat, t: Token, before: Option<int>)
    requires i < n < |calls| && m == n + 1 && StampIs(calls, i, n, t, before)
    ensures StampIs(calls, i, m, t, if before.None? then EndedAt(calls[n], t) else before)
  {
    if before.None? && Ends(calls[n], t) {
      assert EndedAt(calls[n], t) == Some(calls[n].now) && NothingEnds(calls, i, n, t);
    } else if before.Some? {
      var j :| i < j < n && EndedAt(calls[j], t) == before && NothingEnds(calls, i, j, t);
      assert i < j < m && EndedAt(calls[j], t) == before && NothingEnds(calls, i, j, t);
    }
  }

  lemma HoldsStill(s: State, s': State, t: Token, k: nat)
    requires Holds(s, t, k) && UsersInv(s'.users) && UsersExtend(s.users, s'.users)
    requires DigestsDiffer(TokensOf(s', t.purpose)) && TokensExtend(TokensOf(s, t.purpose), TokensOf(s', t.purpose))
    ensures Holds(s', t, k)
  {
    var u := TokensOf(s, t.purpose)[k].owner - 1;
    assert TokenKept(TokensOf(s, t.purpose)[k], TokensOf(s', t.purpose)[k]);
    assert UserKept(s.users[u], s'.users[u]);
    UserIsFound(s'.users, u);
  }

  lemma IssuedRowHolds(p: Passwords, s: State, call: Call, t: Token)
    requires UsersInv(s.users) && DigestsDiffer(TokensOf(Step(p, s, call).0, t.purpose))
    requires call.Sending? && call.purpose == t.purpose && call.email == t.email && call.secret == Some(t.secret)
    requires Step(p, s, call).1 in {Sent(Ok(Delivered)), Sent(Ok(DeliveryFailed))}
    requires t.expiresAt == call.now + call.lifetime
    ensures var s', k := Step(p, s, call).0, |TokensOf(s, t.purpose)|; Holds(s', t, k) && Unspent(s', t, k)
  {
  }

  lemma StepHolds(p: Passwords, prefix: seq<Call>, calls: seq<Call>, call: Call, t: Token, k: nat)
    requires calls == prefix + [call] && FreshSecrets(calls) && Holds(After(p, prefix), t, k)
    ensures Holds(After(p, calls), t, k)
  {
    var s := After(p, prefix);
    assert calls[..|calls| - 1] == prefix;
    UsersHold(p, calls);
    StepKeepsUsers(p, s, call);
    TokensStayDistinct(p, calls, t.purpose);
    StepKeepsTokens(p, s, call, t.purpose);
    HoldsStill(s, After(p, calls), t, k);
  }

  /** After `n` calls, row `k` is the token's, spent since the first call that ended it. */
  predicate Stands(p: Passwords, calls: seq<Call>, i: nat, n: nat, t: Token, k: nat)
    requires n <= |calls|
  {
    && Holds(After(p, calls[..n]), t, k)
    && StampIs(calls, i, n, t, TokensOf(After(p, calls[..n]), t.purpose)[k].consumedAt)
  }

  lemma StandsOnceMailed(p: Passwords, calls: seq<Call>, i: nat, n: nat, t: Token) returns (k: nat)
    requires FreshSecrets(calls) && Mailed(p, calls, i, t) && n == i + 1
    ensures Stands(p, calls, i, n, t, k)
  {
    var s := After(p, calls[..i]);
    assert calls[..n][..i] == calls[..i] && calls[..n][i] == calls[i];
    assert After(p, calls[..n]) == Step(p, s, calls[i]).0;
    k := |TokensOf(s, t.purpose)|;
    UsersHold(p, calls[..i]);
    TokensStayDistinct(p, calls[..n], t.purpose);
    IssuedRowHolds(p, s, calls[i], t);
  }

  lemma StandsAfterNext(p: Passwords, calls: seq<Call>, i: nat, n: nat, m: nat, t: Token, k: nat)
    requires FreshSecrets(calls) && n < |calls| && i < n && m == n + 1 && Stands(p, calls, i, n, t, k)
    ensures Stands(p, calls, i, m, t, k)
  {
    assert calls[..m] == calls[..n] + [calls[n]];
    assert calls[..m][..n] == calls[..n];
    StepHolds(p, calls[..n], calls[..m], calls[n], t, k);
    StepOnRow(p, After(p, calls[..n]), calls[n], t, k);
    StampIsNext(calls, i, n, m, t, TokensOf(After(p, calls[..n]), t.purpose)[k].consumedAt);
  }

  lemma {:induction false} RowThroughHistory(p: Passwords, calls: seq<Call>, i: nat, n: nat, t: Token) returns (k: nat)
    requires FreshSecrets(calls) && Mailed(p, calls, i, t) && i < n <= |calls|
    ensures Stands(p, calls, i, n, t, k)
  {
    if n == i + 1 {
      k := StandsOnceMailed(p, calls, i, n, t);
    } else {
      k := RowThroughHistory(p, calls, i, n - 1, t);
      StandsAfterNext(p, calls, i, n - 1, n, t, k);
    }
  }

  /** Row `k` is the token's, and is stamped with the instant of the first call since that swept or spent it. */
  predicate SpentExactly(p: Passwords, calls: seq<Call>, i: nat, t: Token, k: nat) {
    var rows := TokensOf(After(p, calls), t.purpose);
    && k < |rows| && rows[k].digest == DigestOf(KindOf(t.purpose), t.secret)
    && StampIs(calls, i, |calls|, t, rows[k].consumedAt)
  }

  /** Over every history, a mailed token is spent exactly since the first call that swept it or presented it in time. */
  lemma TokenIsSpentExactlySinceEnded(p: Passwords, calls: seq<Call>, i: nat, t: Token) returns (k: nat)
    requires FreshSecrets(calls) && Mailed(p, calls, i, t)
    ensures SpentExactly(p, calls, i, t, k)
  {
    k := RowThroughHistory(p, calls, i, |calls|, t);
    assert calls[..|calls|] == calls;
  }

  // ---- Exactly when it is accepted -------------------------------------------------------------

  /** The token is accepted for the account with its address. */
  predicate AcceptedForItsAddress(p: Passwords, s: State, call: Call, t: Token) {
    exists i :: 0 <= i < |s.users| && s.users[i].email == t.email
      && AcceptedAs(p, call, s.users[i].id, Step(p, s, call).1)
  }

  lemma ReplyToToken(p: Passwords, s: State, call: Call, t: Token, k: nat)
    requires Holds(s, t, k) && Presents(call, t)
    ensures if Unspent(s, t, k) && call.now < t.expiresAt then AcceptedForItsAddress(p, s, call, t)
            else Step(p, s, call).1 == NoLongerValid(t.purpose)
  {
    PresentedIsParsed(call, t);
    PresentedIsFound(s, t, k, call.now);
    var owner := TokensOf(s, t.purpose)[k].owner;
    assert s.users[owner - 1].id == owner;
    assert Unspent(s, t, k) && call.now < t.expiresAt ==> AcceptedAs(p, call, owner, Step(p, s, call).1);
  }

  /**
   * A mailed token that is presented is accepted, for the account of the address it was mailed to, exactly if the
   * presentation falls within its lifetime and no call since has sent the address another for the same purpose or
   * presented it within its lifetime. Otherwise it is answered as no longer valid.
   */
  lemma TokenIsAcceptedExactly(p: Passwords, calls: seq<Call>, i: nat, t: Token, call: Call)
    requires FreshSecrets(calls) && Mailed(p, calls, i, t) && Presents(call, t)
    ensures
      if call.now < calls[i].now + calls[i].lifetime
         && forall j :: i < j < |calls| ==>
              !Sweeps(calls[j], t) && !(Presents(calls[j], t) && calls[j].now < calls[i].now + calls[i].lifetime)
      then AcceptedForItsAddress(p, After(p, calls), call, t)
      else Step(p, After(p, calls), call).1 == NoLongerValid(t.purpose)
  {
    var k := RowThroughHistory(p, calls, i, |calls|, t);
    assert calls[..|calls|] == calls;
    ReplyToToken(p, After(p, calls), call, t, k);
    StampTellsTheEnd(calls, i, t, TokensOf(After(p, calls), t.purpose)[k].consumedAt);
  }

  lemma StampTellsTheEnd(calls: seq<Call>, i: nat, t: Token, stamp: Option<int>)
    requires StampIs(calls, i, |calls|, t, stamp)
    ensures stamp.None? <==> forall j :: i < j < |calls| ==> !Ends(calls[j], t)
  {
  }

  /** A presentation that is not answered as no longer valid spends what it presents. */
  lemma AcceptedIsSpent(p: Passwords, s: State, call: Call, purpose: Purpose)
    requires call.up >= 1 && call.admitted == FlowOf(call)
    requires if purpose == ForVerification then call.Confirming? else call.Resetting?
    requires Step(p, s, call).1 != NoLongerValid(purpose)
    ensures SpentBy(s, call).Some? && SpentBy(s, call).value.purpose == purpose
    ensures Parsed(KindOf(purpose), call.presented) == Some(SpentBy(s, call).value.secret)
  {
  }

  lemma AuthenticWasMailed(p: Passwords, calls: seq<Call>, users: seq<UserRecord>, spent: Spent, call: Call)
    requires if spent.purpose == ForVerification then call.Confirming? else call.Resetting?
    requires Authentic(p, calls, users, spent, call.now) && call.up >= 1 && call.admitted == FlowOf(call)
    requires Parsed(KindOf(spent.purpose), call.presented) == Some(spent.secret)
    ensures exists i: nat, t: Token ::
      Mailed(p, calls, i, t) && t.purpose == spent.purpose && Presents(call, t)
      && call.now < calls[i].now + calls[i].lifetime
  {
    var email := users[spent.owner - 1].email;
    var i: nat :| i < |calls| && Issues(p, calls, i, spent.purpose, spent.secret.bytes, email)
      && call.now < calls[i].now + calls[i].lifetime;
    var t := Token(spent.purpose, spent.secret.bytes, email, calls[i].now + calls[i].lifetime);
    WireRoundTrip(KindOf(spent.purpose), call.presented, spent.secret);
    assert Mailed(p, calls, i, t) && Presents(call, t);
  }

  /** Conversely, whatever is not answered as no longer valid was mailed, for that purpose, in the lifetime before. */
  lemma AcceptedWasMailedInTime(p: Passwords, calls: seq<Call>, call: Call, purpose: Purpose)
    requires call.up >= 1 && call.admitted == FlowOf(call)
    requires if purpose == ForVerification then call.Confirming? else call.Resetting?
    requires Step(p, After(p, calls), call).1 != NoLongerValid(purpose)
    ensures exists i: nat, t: Token ::
      Mailed(p, calls, i, t) && t.purpose == purpose && Presents(call, t) && call.now < calls[i].now + calls[i].lifetime
  {
    AcceptedIsSpent(p, After(p, calls), call, purpose);
    var spent := SpentBy(After(p, calls), call).value;
    AcceptedTokenWasIssuedToItsOwner(p, calls, call, spent);
    AuthenticWasMailed(p, calls, After(p, calls).users, spent, call);
  }
}

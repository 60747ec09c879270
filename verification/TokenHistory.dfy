/** Mailed tokens over whole serial histories, with storage, entropy and mail failing at any point. */
module TokenHistory {
  import opened Wrappers
  import opened Bytes
  import opened AuthErrors
  import opened Opaque
  import opened Accounts
  import opened AuthenticationService
  import opened AccountHistory

  /** A call that got past the token check: which token it spent, and whose. */
  datatype Spent = Spent(purpose: Purpose, secret: Opaque, owner: UserId)

  function SpentFrom(s: State, purpose: Purpose, presented: string, now: int): Option<Spent> {
    var secret := Parsed(KindOf(purpose), presented);
    if secret.None? then None
    else
      var i := ConsumableAt(TokensOf(s, purpose), Digest(secret.value), now);
      if i.None? then None else Some(Spent(purpose, secret.value, TokensOf(s, purpose)[i.value].owner))
  }

  function SpentBy(s: State, call: Call): Option<Spent> {
    if call.admitted != FlowOf(call) || call.up == 0 then None
    else match call
      case Confirming(_, presented, now, _) => SpentFrom(s, ForVerification, presented, now)
      case Resetting(_, presented, _, _, now, _) => SpentFrom(s, ForReset, presented, now)
      case _ => None
  }

  /**
   * A token is accepted exactly when it is spent: every success, and every refusal of the new password,
   * has spent one; "no longer valid" has spent none, and then nothing changed at all.
   */
  lemma RepliesTellSpending(p: Passwords, s: State, call: Call)
    ensures var (t, reply) := Step(p, s, call);
      var spent := SpentBy(s, call);
      && (reply.Confirmed? && reply.verified.Ok? ==> spent.Some? && spent.value.owner == reply.verified.value)
      && (reply.WasReset? && reply.changed.Ok? ==> spent.Some? && spent.value.owner == reply.changed.value)
      && (reply == WasReset(Err(Refused(PasswordRejected))) ==> spent.Some?)
      && (reply == WasReset(Err(Refused(CredentialNoLongerValid))) ==> spent.None?)
      && (reply == Confirmed(Err(Refused(CredentialNoLongerValid))) ==> spent.None?)
      && ((call.Confirming? || call.Resetting?) && spent.None? ==> t == s)
  {
  }

  // ---- Rows are only added and stamped -------------------------------------------------------

  /** The row a call adds to the tokens of its purpose, if it adds one. */
  function IssuedBy(p: Passwords, s: State, call: Call): Option<MailedToken> {
    var reply := Step(p, s, call).1;
    if reply.Sent? && reply.dispatch.Ok? && reply.dispatch.value != NoAccount && call.Sending? && call.secret.Some?
       && UserAt(s.users, call.email).Some? then
      Some(MailedToken(
        s.users[UserAt(s.users, call.email).value].id,
        Digest(Opaque(KindOf(call.purpose), call.secret.value)), call.now + call.lifetime, None))
    else None
  }

  /** A send that issues sweeps the account's earlier tokens and adds its own; any other send adds none. */
  lemma SendingAppends(p: Passwords, s: State, call: Call)
    requires call.Sending?
    ensures var rows, after := TokensOf(s, call.purpose), TokensOf(Step(p, s, call).0, call.purpose);
      if IssuedBy(p, s, call).Some?
      then var token := IssuedBy(p, s, call).value;
        after == WithIssued(InvalidatedFor(rows, token.owner, call.now), token.owner, token.digest, token.expiresAt)
      else TokensExtend(rows, after) && |after| == |rows|
  {
  }

  lemma StepKeepsTokens(p: Passwords, s: State, call: Call, purpose: Purpose)
    ensures var rows, after := TokensOf(s, purpose), TokensOf(Step(p, s, call).0, purpose);
      && TokensExtend(rows, after)
      && (if call.Sending? && call.purpose == purpose && IssuedBy(p, s, call).Some?
          then after[|rows|..] == [IssuedBy(p, s, call).value]
          else |after| == |rows|)
  {
    if call.Sending? {
      SendingAppends(p, s, call);
    }
  }

  lemma SpendingStampsTheRow(p: Passwords, s: State, call: Call)
    requires SpentBy(s, call).Some?
    ensures var spent := SpentBy(s, call).value;
      exists i :: 0 <= i < |TokensOf(s, spent.purpose)| && StampsOnly(s, Step(p, s, call).0, spent, i)
  {
    var spent := SpentBy(s, call).value;
    var i := ConsumableAt(TokensOf(s, spent.purpose), Digest(spent.secret), call.now).value;
    assert StampsOnly(s, Step(p, s, call).0, spent, i);
  }

  /** Row `i` carried the token, unconsumed; it is now consumed, and no other row of that purpose changed. */
  predicate StampsOnly(s: State, t: State, spent: Spent, i: nat)
    requires i < |TokensOf(s, spent.purpose)|
  {
    var rows, after := TokensOf(s, spent.purpose), TokensOf(t, spent.purpose);
    && rows[i].digest == Digest(spent.secret) && rows[i].owner == spent.owner && rows[i].consumedAt.None?
    && |after| == |rows| && after[i].consumedAt.Some? && TokenKept(rows[i], after[i])
    && forall j :: 0 <= j < |rows| && j != i ==> after[j] == rows[j]
  }

  lemma {:induction false} TokensAreKept(p: Passwords, calls: seq<Call>, more: seq<Call>, purpose: Purpose)
    ensures TokensExtend(TokensOf(After(p, calls), purpose), TokensOf(After(p, calls + more), purpose))
  {
    if more == [] {
      assert calls + more == calls;
    } else {
      var before := calls + more[..|more| - 1];
      TokensAreKept(p, calls, more[..|more| - 1], purpose);
      assert (calls + more)[..|calls + more| - 1] == before;
      StepKeepsTokens(p, After(p, before), more[|more| - 1], purpose);
      var a, b, c := TokensOf(After(p, calls), purpose), TokensOf(After(p, before), purpose),
        TokensOf(After(p, calls + more), purpose);
      ExtendingIsTransitive(a, b, c);
    }
  }

  // ---- Authenticity --------------------------------------------------------------------------

  /** Call `i` issued this secret for this address and purpose, whether or not its mail arrived. */
  predicate Issues(p: Passwords, calls: seq<Call>, i: nat, purpose: Purpose, secret: Bytes32, email: string)
    requires i < |calls|
  {
    && calls[i].Sending? && calls[i].purpose == purpose && calls[i].email == email && calls[i].secret == Some(secret)
    && Step(p, After(p, calls[..i]), calls[i]).1 in {Sent(Ok(Delivered)), Sent(Ok(DeliveryFailed))}
  }

  /** The instant from which a token that call `i` issued is no longer accepted. */
  function ExpiryOf(calls: seq<Call>, i: nat): int
    requires i < |calls| && calls[i].Sending?
  {
    calls[i].now + calls[i].lifetime
  }

  /** Call `i` issued the token in this row for this address. */
  predicate IssuedAt(p: Passwords, calls: seq<Call>, i: nat, purpose: Purpose, row: MailedToken, email: string)
    requires i < |calls|
  {
    && row.digest.kind == KindOf(purpose)
    && Issues(p, calls, i, purpose, row.digest.bytes, email) && row.expiresAt == ExpiryOf(calls, i)
  }

  predicate WasIssued(p: Passwords, calls: seq<Call>, purpose: Purpose, row: MailedToken, email: string) {
    exists i: nat :: i < |calls| && IssuedAt(p, calls, i, purpose, row, email)
  }

  /** The row's owner has an address, and some earlier call issued this token for it. */
  predicate RowIssued(p: Passwords, calls: seq<Call>, users: seq<UserRecord>, purpose: Purpose, row: MailedToken) {
    1 <= row.owner <= |users| && WasIssued(p, calls, purpose, row, users[row.owner - 1].email)
  }

  predicate AllIssued(p: Passwords, calls: seq<Call>, purpose: Purpose) {
    var s := After(p, calls);
    forall k :: 0 <= k < |TokensOf(s, purpose)| ==> RowIssued(p, calls, s.users, purpose, TokensOf(s, purpose)[k])
  }

  lemma RowIssuedPersists(p: Passwords, calls: seq<Call>, call: Call, users: seq<UserRecord>, purpose: Purpose,
                          row: MailedToken, row': MailedToken)
    requires RowIssued(p, calls, After(p, calls).users, purpose, row) && TokenKept(row, row')
    requires UsersExtend(After(p, calls).users, users)
    ensures RowIssued(p, calls + [call], users, purpose, row')
  {
    var email := After(p, calls).users[row.owner - 1].email;
    var i: nat :| i < |calls| && IssuedAt(p, calls, i, purpose, row, email);
    assert (calls + [call])[..i] == calls[..i];
    assert IssuedAt(p, calls + [call], i, purpose, row', email);
    assert UserKept(After(p, calls).users[row.owner - 1], users[row.owner - 1]);
  }

  lemma {:induction false} EveryTokenWasIssued(p: Passwords, calls: seq<Call>, purpose: Purpose)
    ensures AllIssued(p, calls, purpose)
  {
    if calls != [] {
      var prefix, call := calls[..|calls| - 1], calls[|calls| - 1];
      var s, t := After(p, prefix), After(p, calls);
      assert calls == prefix + [call];
      EveryTokenWasIssued(p, prefix, purpose);
      UsersHold(p, prefix);
      StepKeepsUsers(p, s, call);
      StepKeepsTokens(p, s, call, purpose);
      var rows, after := TokensOf(s, purpose), TokensOf(t, purpose);
      forall k | 0 <= k < |after|
        ensures RowIssued(p, calls, t.users, purpose, after[k])
      {
        if k < |rows| {
          RowIssuedPersists(p, prefix, call, t.users, purpose, rows[k], after[k]);
        } else {
          assert after[k] == after[|rows|..][0];
          NewRowIsIssued(p, prefix, call, t.users, purpose, after[k]);
        }
      }
    }
  }

  lemma NewRowIsIssued(p: Passwords, prefix: seq<Call>, call: Call, users: seq<UserRecord>, purpose: Purpose,
                       row: MailedToken)
    requires call.Sending? && call.purpose == purpose && IssuedBy(p, After(p, prefix), call) == Some(row)
    requires UsersInv(After(p, prefix).users) && UsersExtend(After(p, prefix).users, users)
    ensures RowIssued(p, prefix + [call], users, purpose, row)
  {
    var s, calls := After(p, prefix), prefix + [call];
    var i := UserAt(s.users, call.email).value;
    assert UserKept(s.users[i], users[i]);
    assert calls[..|prefix|] == prefix && calls[|prefix|] == call;
    assert IssuedAt(p, calls, |prefix|, purpose, row, users[row.owner - 1].email);
  }

  /**
   * The token is of the kind its purpose calls for, and was issued, for the address of the account it names, by a
   * call whose lifetime for it is not over at `now`.
   */
  predicate Authentic(p: Passwords, calls: seq<Call>, users: seq<UserRecord>, spent: Spent, now: int) {
    && spent.secret.kind == KindOf(spent.purpose)
    && 1 <= spent.owner <= |users|
    && exists i: nat :: i < |calls|
         && Issues(p, calls, i, spent.purpose, spent.secret.bytes, users[spent.owner - 1].email)
         && now < calls[i].now + calls[i].lifetime
  }

  lemma IssuedRowIsAuthentic(
      p: Passwords, calls: seq<Call>, users: seq<UserRecord>, row: MailedToken, spent: Spent, now: int)
    requires RowIssued(p, calls, users, spent.purpose, row) && spent.secret.kind == KindOf(spent.purpose)
    requires row.digest == Digest(spent.secret) && row.owner == spent.owner && now < row.expiresAt
    ensures Authentic(p, calls, users, spent, now)
  {
  }

  lemma RowWasIssued(p: Passwords, calls: seq<Call>, purpose: Purpose, i: nat)
    requires i < |TokensOf(After(p, calls), purpose)|
    ensures RowIssued(p, calls, After(p, calls).users, purpose, TokensOf(After(p, calls), purpose)[i])
  {
    EveryTokenWasIssued(p, calls, purpose);
  }

  lemma SpentRow(s: State, call: Call) returns (i: nat)
    requires SpentBy(s, call).Some?
    ensures var spent, rows := SpentBy(s, call).value, TokensOf(s, SpentBy(s, call).value.purpose);
      && spent.secret.kind == KindOf(spent.purpose)
      && i < |rows| && rows[i].digest == Digest(spent.secret) && rows[i].owner == spent.owner
      && call.now < rows[i].expiresAt
  {
    var spent := SpentBy(s, call).value;
    i := ConsumableAt(TokensOf(s, spent.purpose), Digest(spent.secret), call.now).value;
  }

  /**
   * Authenticity: whatever failed along the way, a token that is accepted was issued earlier, for the same
   * purpose, in a call for the address of the very account it now acts on, and its lifetime since is not over.
   */
  lemma AcceptedTokenWasIssuedToItsOwner(p: Passwords, calls: seq<Call>, call: Call, spent: Spent)
    requires SpentBy(After(p, calls), call) == Some(spent)
    ensures Authentic(p, calls, After(p, calls).users, spent, call.now)
  {
    var i := SpentRow(After(p, calls), call);
    RowWasIssued(p, calls, spent.purpose, i);
    IssuedRowIsAuthentic(
      p, calls, After(p, calls).users, TokensOf(After(p, calls), spent.purpose)[i], spent, call.now);
  }

  // ---- Once only -----------------------------------------------------------------------------

  /** The entropy source never repeats itself within a purpose. */
  predicate FreshSecrets(calls: seq<Call>) {
    forall i, j :: 0 <= i < j < |calls| ==> SecretsDiffer(calls[i], calls[j])
  }

  predicate SecretsDiffer(a: Call, b: Call) {
    a.Sending? && b.Sending? && a.purpose == b.purpose && a.secret.Some? ==> a.secret != b.secret
  }

  /** A token issued with a secret never drawn before carries a digest no row carries yet. */
  lemma FreshTokenIsNew(p: Passwords, prefix: seq<Call>, call: Call, purpose: Purpose, k: nat)
    requires call.Sending? && call.purpose == purpose && IssuedBy(p, After(p, prefix), call).Some?
    requires forall i :: 0 <= i < |prefix| ==> SecretsDiffer(prefix[i], call)
    requires k < |TokensOf(After(p, prefix), purpose)|
    ensures TokensOf(After(p, prefix), purpose)[k].digest != IssuedBy(p, After(p, prefix), call).value.digest
  {
    RowWasIssued(p, prefix, purpose, k);
    var s, row := After(p, prefix), TokensOf(After(p, prefix), purpose)[k];
    var i: nat :| i < |prefix| && IssuedAt(p, prefix, i, purpose, row, s.users[row.owner - 1].email);
    assert SecretsDiffer(prefix[i], call);
  }

  lemma {:induction false} TokensStayDistinct(p: Passwords, calls: seq<Call>, purpose: Purpose)
    requires FreshSecrets(calls)
    ensures DigestsDiffer(TokensOf(After(p, calls), purpose))
  {
    if calls != [] {
      var prefix, call := calls[..|calls| - 1], calls[|calls| - 1];
      TokensStayDistinct(p, prefix, purpose);
      StepKeepsTokens(p, After(p, prefix), call, purpose);
      var rows, after := TokensOf(After(p, prefix), purpose), TokensOf(After(p, calls), purpose);
      if |after| > |rows| {
        assert after[|rows|] == after[|rows|..][0];
        assert forall i :: 0 <= i < |prefix| ==> SecretsDiffer(calls[i], calls[|calls| - 1]);
        forall k | 0 <= k < |rows|
          ensures rows[k].digest != after[|rows|].digest
        {
          FreshTokenIsNew(p, prefix, call, purpose, k);
        }
      }
      KeptTokensDiffer(rows, after);
    }
  }

  lemma KeptTokensDiffer(rows: seq<MailedToken>, after: seq<MailedToken>)
    requires TokensExtend(rows, after) && |after| <= |rows| + 1 && DigestsDiffer(rows)
    requires |after| > |rows| ==> forall k :: 0 <= k < |rows| ==> rows[k].digest != after[|rows|].digest
    ensures DigestsDiffer(after)
  {
    forall i, j | 0 <= i < j < |after|
      ensures after[i].digest != after[j].digest
    {
      assert TokenKept(rows[i], after[i]) && (j < |rows| ==> TokenKept(rows[j], after[j]));
    }
  }

  /** The row of a spent token is still there, and still spent, however the history goes on. */
  lemma SpentRowStaysSpent(p: Passwords, calls: seq<Call>, j: nat) returns (a: nat)
    requires j < |calls| && SpentBy(After(p, calls[..j]), calls[j]).Some?
    ensures var spent := SpentBy(After(p, calls[..j]), calls[j]).value;
      var rows := TokensOf(After(p, calls), spent.purpose);
      a < |rows| && rows[a].digest == Digest(spent.secret) && rows[a].consumedAt.Some?
  {
    var s, t := After(p, calls[..j]), After(p, calls[..j + 1]);
    var spent := SpentBy(s, calls[j]).value;
    assert calls[..j + 1][..j] == calls[..j];
    assert calls == calls[..j + 1] + calls[j + 1..];
    SpendingStampsTheRow(p, s, calls[j]);
    a :| 0 <= a < |TokensOf(s, spent.purpose)| && StampsOnly(s, t, spent, a);
    TokensAreKept(p, calls[..j + 1], calls[j + 1..], spent.purpose);
    assert TokenKept(TokensOf(t, spent.purpose)[a], TokensOf(After(p, calls), spent.purpose)[a]);
  }

  /** Each token is accepted at most once over a whole history, even when the new password was then refused. */
  lemma EachTokenIsAcceptedOnce(p: Passwords, calls: seq<Call>, j: nat, k: nat)
    requires FreshSecrets(calls) && j < k < |calls|
    requires SpentBy(After(p, calls[..j]), calls[j]).Some? && SpentBy(After(p, calls[..k]), calls[k]).Some?
    ensures SpentBy(After(p, calls[..j]), calls[j]).value.secret != SpentBy(After(p, calls[..k]), calls[k]).value.secret
  {
    assert calls[..k][..j] == calls[..j];
    var first := SpentBy(After(p, calls[..j]), calls[j]).value;
    var a := SpentRowStaysSpent(p, calls[..k], j);
    var _ := SpentRow(After(p, calls[..j]), calls[j]);
    TokensStayDistinct(p, calls[..k], first.purpose);
    SpentSecretIsUnspent(After(p, calls[..k]), calls[k], first.secret, first.purpose, a);
  }

  lemma SpentSecretIsUnspent(s: State, call: Call, secret: Opaque, purpose: Purpose, a: nat)
    requires SpentBy(s, call).Some? && secret.kind == KindOf(purpose)
    requires a < |TokensOf(s, purpose)| && DigestsDiffer(TokensOf(s, purpose))
    requires TokensOf(s, purpose)[a].digest == Digest(secret) && TokensOf(s, purpose)[a].consumedAt.Some?
    ensures SpentBy(s, call).value.secret != secret
  {
    var spent := SpentBy(s, call).value;
    if spent.purpose == purpose {
      var b := ConsumableAt(TokensOf(s, purpose), Digest(spent.secret), call.now).value;
      assert b != a;
    }
  }

  /** A call that spends a token changes nothing of any other account. */
  lemma SpendingChangesOnlyItsOwner(p: Passwords, calls: seq<Call>, call: Call, other: UserId)
    requires SpentBy(After(p, calls), call).Some? && other != SpentBy(After(p, calls), call).value.owner
    ensures var s, t := After(p, calls), Step(p, After(p, calls), call).0;
      && |t.users| == |s.users|
      && (1 <= other <= |s.users| ==> t.users[other - 1] == s.users[other - 1])
      && CredentialOf(t.credentials, other) == CredentialOf(s.credentials, other)
  {
    var s, spent := After(p, calls), SpentBy(After(p, calls), call).value;
    UsersHold(p, calls);
    match call
    case Confirming(_, _, now, _) => MarkingKeepsUsers(s.users, spent.owner, now);
    case Resetting(_, _, password, salt, _, _) =>
      if salt.Some? {
        UpsertIsAMapUpdate(s.credentials, spent.owner, p.hash(p.normalise(password), salt.value), other);
      }
    case _ =>
  }

  lemma SpentOwnerHasAnAccount(p: Passwords, calls: seq<Call>, call: Call)
    requires SpentBy(After(p, calls), call).Some?
    ensures 1 <= SpentBy(After(p, calls), call).value.owner <= |After(p, calls).users|
  {
    AcceptedTokenWasIssuedToItsOwner(p, calls, call, SpentBy(After(p, calls), call).value);
  }

  lemma ConfirmingVerifies(p: Passwords, s: State, call: Call)
    requires UsersInv(s.users) && call.Confirming? && Step(p, s, call).1.verified.Ok?
    requires 1 <= Step(p, s, call).1.verified.value <= |s.users|
    ensures var (t, reply) := Step(p, s, call);
      var owner := reply.verified.value;
      |t.users| == |s.users| && t.users[owner - 1] == Verified(s.users[owner - 1], owner, call.now)
  {
    MarkingKeepsUsers(s.users, Step(p, s, call).1.verified.value, call.now);
  }

  /** A successful confirmation leaves its owner verified, since the first instant it was. */
  lemma ConfirmationVerifiesTheOwner(p: Passwords, calls: seq<Call>, call: Call)
    requires call.Confirming? && Step(p, After(p, calls), call).1.verified.Ok?
    ensures var s, (t, reply) := After(p, calls), Step(p, After(p, calls), call);
      var owner := reply.verified.value;
      && 1 <= owner <= |t.users| == |s.users|
      && t.users[owner - 1].verifiedAt
         == if s.users[owner - 1].verifiedAt.Some? then s.users[owner - 1].verifiedAt else Some(call.now)
  {
    UsersHold(p, calls);
    RepliesTellSpending(p, After(p, calls), call);
    SpentOwnerHasAnAccount(p, calls, call);
    ConfirmingVerifies(p, After(p, calls), call);
  }

  // ---- Resending, serially -------------------------------------------------------------------

  /** A serial send that issues leaves exactly the token it issued unconsumed for that account, and unexpired. */
  lemma SerialSendLeavesOneLiveToken(p: Passwords, s: State, call: Call)
    requires call.Sending? && IssuedBy(p, s, call).Some?
    ensures var rows, token := TokensOf(Step(p, s, call).0, call.purpose), IssuedBy(p, s, call).value;
      && rows != [] && rows[|rows| - 1] == token && token.expiresAt > call.now
      && Unconsumed(rows, token.owner) == 1
      && forall i :: 0 <= i < |rows| - 1 && rows[i].owner == token.owner ==> rows[i].consumedAt.Some?
  {
    var rows, token := TokensOf(s, call.purpose), IssuedBy(p, s, call).value;
    var swept := InvalidatedFor(rows, token.owner, call.now);
    SendingAppends(p, s, call);
    InvalidationLeavesNone(rows, token.owner, call.now);
    IssueAddsOne(swept, token.owner, token.digest, token.expiresAt, token.owner);
  }

  /** At most one live token per purpose per account, over every serial history, whatever fails. */
  lemma {:induction false} AtMostOneLiveToken(p: Passwords, calls: seq<Call>, purpose: Purpose, owner: UserId)
    ensures Unconsumed(TokensOf(After(p, calls), purpose), owner) <= 1
  {
    if calls != [] {
      var prefix, call := calls[..|calls| - 1], calls[|calls| - 1];
      var s := After(p, prefix);
      AtMostOneLiveToken(p, prefix, purpose, owner);
      StepKeepsTokens(p, s, call, purpose);
      var rows, after := TokensOf(s, purpose), TokensOf(After(p, calls), purpose);
      if |after| == |rows| {
        assert forall i :: 0 <= i < |rows| ==> TokenKept(rows[i], after[i]);
        StampingNeverRaises(rows, after, owner);
      } else {
        SerialSendLeavesOneLiveToken(p, s, call);
        var id := IssuedBy(p, s, call).value.owner;
        if id != owner {
          assert forall i :: 0 <= i < |rows| ==> TokenKept(rows[i], after[i]);
          assert after[..|after| - 1] == after[..|rows|];
          StampingNeverRaises(rows, after[..|rows|], owner);
        }
      }
    }
  }
}

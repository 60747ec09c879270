/** Registration, login, mailed tokens and password reset, over the three account stores. */
module AuthenticationService {
  import opened Wrappers
  import opened Bytes
  import opened Instants
  import opened AuthErrors
  import opened Attempts
  import opened Opaque
  import opened Accounts

  type Salt = nat

  /** The password functions the service is configured with: hashing is foreign, and enters as functions. */
  datatype Passwords = Passwords(
    normalise: string -> string,
    hash: (string, Salt) -> PasswordHash,
    verify: (string, PasswordHash) -> bool,
    minimum: nat,
    maximum: nat,
    blocked: string -> bool)

  /** An ideal hash: a candidate verifies exactly against hashes of its own normal form. */
  ghost predicate Ideal(p: Passwords) {
    forall a, b, salt :: Matches(p, a, p.hash(p.normalise(b), salt)) <==> p.normalise(a) == p.normalise(b)
  }

  predicate Matches(p: Passwords, candidate: string, stored: PasswordHash) {
    p.verify(p.normalise(candidate), stored)
  }

  /** Length after normalisation, whose result has one character per code point; then the blocklist. */
  predicate Acceptable(p: Passwords, password: string) {
    p.minimum <= |p.normalise(password)| <= p.maximum && !p.blocked(password)
  }

  /** What no policy lets through: a blocked password, or one too short or too long once normalised. */
  predicate IsBad(p: Passwords, password: string) {
    p.blocked(password) || |p.normalise(password)| < p.minimum || |p.normalise(password)| > p.maximum
  }

  /** An email-delivered token lives at most a day. */
  const TOKEN_LIFETIME_CEILING := DAY

  type TokenLifetime = t: int | 0 < t <= TOKEN_LIFETIME_CEILING witness 1

  datatype DispatchOutcome = NoAccount | Delivered | DeliveryFailed

  datatype Authenticated = Authenticated(user: UserId, mustChangePassword: bool)

  datatype OutgoingMail = OutgoingMail(kind: OpaqueKind, to: string, secret: Opaque)

  /**
   * The operations as functions of the stores. `up` is how many store calls of the operation succeed
   * before one fails; an operation makes at most three.
   */
  function RegisterIn(
      p: Passwords, users: seq<UserRecord>, credentials: seq<CredentialRecord>,
      email: string, password: string, salt: Option<Salt>, up: nat)
    : (seq<UserRecord>, seq<CredentialRecord>, Result<Registration, ServiceError>)
  {
    if !Acceptable(p, password) then (users, credentials, Err(Refused(PasswordRejected)))
    else if salt.None? then (users, credentials, Err(Refused(EntropyUnavailable)))
    else if up == 0 then (users, credentials, Err(Storage))
    else if UserAt(users, email).Some? then (users, credentials, Ok(AlreadyRegistered))
    else
      var user := NewUser(users, email);
      if up == 1 then (users + [user], credentials, Err(Storage))
      else
        var hash := p.hash(p.normalise(password), salt.value);
        (users + [user], Upserted(credentials, user.id, hash), Ok(Created(user.id)))
  }

  function LogInWith(
      p: Passwords, users: seq<UserRecord>, credentials: seq<CredentialRecord>,
      email: string, password: string, absent: Option<UserId>, up: nat): Result<Authenticated, ServiceError>
  {
    if up == 0 then Err(Storage)
    else if absent.None? then Err(Refused(EntropyUnavailable))
    else if up == 1 then Err(Storage)
    else
      var i := UserAt(users, email);
      var credential := CredentialOf(credentials, if i.Some? then users[i.value].id else absent.value);
      if i.Some? && credential.Some? && Matches(p, password, credential.value.hash) then
        Ok(Authenticated(users[i.value].id, credential.value.mustChange))
      else Err(Refused(InvalidCredentials))
  }

  function SendIn(
      users: seq<UserRecord>, rows: seq<MailedToken>, kind: OpaqueKind,
      email: string, lifetime: TokenLifetime, secret: Option<Bytes32>, mailUp: bool, now: int, up: nat)
    : (seq<MailedToken>, Result<DispatchOutcome, ServiceError>)
  {
    if up == 0 then (rows, Err(Storage))
    else if UserAt(users, email).None? then (rows, Ok(NoAccount))
    else if up == 1 then (rows, Err(Storage))
    else
      var id := users[UserAt(users, email).value].id;
      var swept := InvalidatedFor(rows, id, now);
      if secret.None? then (swept, Err(Refused(EntropyUnavailable)))
      else if up == 2 then (swept, Err(Storage))
      else (WithIssued(swept, id, Digest(Opaque(kind, secret.value)), now + lifetime),
            Ok(if mailUp then Delivered else DeliveryFailed))
  }

  function ConfirmIn(users: seq<UserRecord>, rows: seq<MailedToken>, presented: string, now: int, up: nat)
    : (seq<UserRecord>, seq<MailedToken>, Result<UserId, ServiceError>)
  {
    var secret := Parsed(Verification, presented);
    if secret.None? then (users, rows, Err(Refused(CredentialNoLongerValid)))
    else if up == 0 then (users, rows, Err(Storage))
    else
      var i := ConsumableAt(rows, Digest(secret.value), now);
      if i.None? then (users, rows, Err(Refused(CredentialNoLongerValid)))
      else if up == 1 then (users, ConsumedAt(rows, i.value, now), Err(Storage))
      else (MarkedVerified(users, rows[i.value].owner, now), ConsumedAt(rows, i.value, now), Ok(rows[i.value].owner))
  }

  function ResetIn(
      p: Passwords, credentials: seq<CredentialRecord>, rows: seq<MailedToken>,
      presented: string, password: string, salt: Option<Salt>, now: int, up: nat)
    : (seq<CredentialRecord>, seq<MailedToken>, Result<UserId, ServiceError>)
  {
    var secret := Parsed(PasswordReset, presented);
    if secret.None? then (credentials, rows, Err(Refused(CredentialNoLongerValid)))
    else if up == 0 then (credentials, rows, Err(Storage))
    else
      var i := ConsumableAt(rows, Digest(secret.value), now);
      if i.None? then (credentials, rows, Err(Refused(CredentialNoLongerValid)))
      else
        var spent, owner := ConsumedAt(rows, i.value, now), rows[i.value].owner;
        if !Acceptable(p, password) then (credentials, spent, Err(Refused(PasswordRejected)))
        else if salt.None? then (credentials, spent, Err(Refused(EntropyUnavailable)))
        else if up == 1 then (credentials, spent, Err(Storage))
        else (Upserted(credentials, owner, p.hash(p.normalise(password), salt.value)), spent, Ok(owner))
  }

  /** What a call mails: its secret, to the address it was asked for, exactly when it reports a delivery. */
  function MailedBy(
      r: Result<DispatchOutcome, ServiceError>, kind: OpaqueKind, email: string, secret: Option<Bytes32>)
    : seq<OutgoingMail>
  {
    if r == Ok(Delivered) && secret.Some? then [OutgoingMail(kind, email, Opaque(kind, secret.value))] else []
  }

  // ---- The service ---------------------------------------------------------------------------

  class MailPort {
    var sent: seq<OutgoingMail>
    var up: bool

    constructor ()
      ensures sent == [] && up
    {
      sent, up := [], true;
    }

    method Deliver(message: OutgoingMail) returns (ok: bool)
      modifies this
      ensures ok == up == old(up) && sent == old(sent) + if ok then [message] else []
    {
      ok := up;
      if up {
        sent := sent + [message];
      }
    }
  }

  class Service {
    const users: Users
    const credentials: Credentials
    const passwords: Passwords
    const dummy: PasswordHash

    constructor (users: Users, credentials: Credentials, passwords: Passwords, dummy: PasswordHash)
      ensures this.users == users && this.credentials == credentials
      ensures this.passwords == passwords && this.dummy == dummy
    {
      this.users, this.credentials, this.passwords, this.dummy := users, credentials, passwords, dummy;
    }

    method Register(admitted: AttemptFlow, email: string, password: string, salt: Option<Salt>, up: nat)
      returns (r: Result<Registration, ServiceError>)
      modifies users, credentials
      ensures admitted != AttemptFlow.Register ==>
        && r == Err(Refused(PolicyMisconfigured))
        && users.rows == old(users.rows) && credentials.rows == old(credentials.rows)
      ensures admitted == AttemptFlow.Register ==>
        (users.rows, credentials.rows, r)
          == RegisterIn(passwords, old(users.rows), old(credentials.rows), email, password, salt, up)
      ensures r == Err(Refused(PasswordRejected)) <==>
        admitted == AttemptFlow.Register && IsBad(passwords, password)
    {
      if admitted != AttemptFlow.Register {
        return Err(Refused(PolicyMisconfigured));
      }
      var length := |passwords.normalise(password)|;
      if length < passwords.minimum || length > passwords.maximum || passwords.blocked(password) {
        return Err(Refused(PasswordRejected));
      }
      if salt.None? {
        return Err(Refused(EntropyUnavailable));
      }
      var hash := passwords.hash(passwords.normalise(password), salt.value);
      if up == 0 {
        return Err(Storage);
      }
      var outcome := users.Register(email);
      if outcome.AlreadyRegistered? {
        return Ok(AlreadyRegistered);
      }
      if up == 1 {
        return Err(Storage);
      }
      credentials.Upsert(outcome.id, hash);
      return Ok(outcome);
    }

    /** One path: the identity looked up and the hash verified against are selected, never branched on. */
    method LogIn(admitted: AttemptFlow, email: string, password: string, absent: Option<UserId>, up: nat)
      returns (r: Result<Authenticated, ServiceError>)
      ensures admitted != AttemptFlow.LogIn ==> r == Err(Refused(PolicyMisconfigured))
      ensures admitted == AttemptFlow.LogIn ==>
        r == LogInWith(passwords, users.rows, credentials.rows, email, password, absent, up)
    {
      if admitted != AttemptFlow.LogIn {
        return Err(Refused(PolicyMisconfigured));
      }
      if up == 0 {
        return Err(Storage);
      }
      var user := users.FindByEmail(email);
      if absent.None? {
        return Err(Refused(EntropyUnavailable));
      }
      var lookup := if user.Some? then user.value.id else absent.value;
      if up == 1 {
        return Err(Storage);
      }
      var credential := credentials.Find(lookup);
      var stored := if credential.Some? then Some(credential.value.hash) else None;
      var verified := VerifyAgainstStoredOrDummy(password, stored);
      if user.None? || credential.None? || !verified {
        return Err(Refused(InvalidCredentials));
      }
      return Ok(Authenticated(user.value.id, credential.value.mustChange));
    }

    /** One verification always runs; it counts only when something is stored. */
    method VerifyAgainstStoredOrDummy(password: string, stored: Option<PasswordHash>) returns (verified: bool)
      ensures verified <==> stored.Some? && Matches(passwords, password, stored.value)
    {
      var present := stored.Some?;
      var hash := if present then stored.value else dummy;
      var matched := passwords.verify(passwords.normalise(password), hash);
      verified := matched && present;
    }

    method IssueAndSend(
        tokens: Tokens, mail: MailPort, kind: OpaqueKind, email: string,
        lifetime: TokenLifetime, secret: Option<Bytes32>, now: int, up: nat)
      returns (r: Result<DispatchOutcome, ServiceError>)
      modifies tokens, mail
      ensures (tokens.rows, r)
        == SendIn(users.rows, old(tokens.rows), kind, email, lifetime, secret, old(mail.up), now, up)
      ensures mail.sent == old(mail.sent) + MailedBy(r, kind, email, secret)
    {
      if up == 0 {
        return Err(Storage);
      }
      var user := users.FindByEmail(email);
      if user.None? {
        return Ok(NoAccount);
      }
      if up == 1 {
        return Err(Storage);
      }
      var swept := tokens.InvalidateAllFor(user.value.id, now);
      if secret.None? {
        return Err(Refused(EntropyUnavailable));
      }
      var minted := Opaque(kind, secret.value);
      if up == 2 {
        return Err(Storage);
      }
      tokens.Issue(user.value.id, Digest(minted), now + lifetime);
      var delivered := mail.Deliver(OutgoingMail(kind, user.value.email, minted));
      return Ok(if delivered then Delivered else DeliveryFailed);
    }

    method SendVerification(
        admitted: AttemptFlow, tokens: Tokens, mail: MailPort, email: string,
        lifetime: TokenLifetime, secret: Option<Bytes32>, now: int, up: nat)
      returns (r: Result<DispatchOutcome, ServiceError>)
      modifies tokens, mail
      ensures admitted != VerificationResend ==>
        r == Err(Refused(PolicyMisconfigured)) && tokens.rows == old(tokens.rows) && mail.sent == old(mail.sent)
      ensures admitted == VerificationResend ==>
        (tokens.rows, r)
          == SendIn(users.rows, old(tokens.rows), Verification, email, lifetime, secret, old(mail.up), now, up)
      ensures admitted == VerificationResend ==>
        mail.sent == old(mail.sent) + MailedBy(r, Verification, email, secret)
    {
      if admitted != VerificationResend {
        return Err(Refused(PolicyMisconfigured));
      }
      r := IssueAndSend(tokens, mail, Verification, email, lifetime, secret, now, up);
    }

    method ForgotPassword(
        admitted: AttemptFlow, tokens: Tokens, mail: MailPort, email: string,
        lifetime: TokenLifetime, secret: Option<Bytes32>, now: int, up: nat)
      returns (r: Result<DispatchOutcome, ServiceError>)
      modifies tokens, mail
      ensures admitted != AttemptFlow.ForgotPassword ==>
        r == Err(Refused(PolicyMisconfigured)) && tokens.rows == old(tokens.rows) && mail.sent == old(mail.sent)
      ensures admitted == AttemptFlow.ForgotPassword ==>
        (tokens.rows, r)
          == SendIn(users.rows, old(tokens.rows), PasswordReset, email, lifetime, secret, old(mail.up), now, up)
      ensures admitted == AttemptFlow.ForgotPassword ==>
        mail.sent == old(mail.sent) + MailedBy(r, PasswordReset, email, secret)
    {
      if admitted != AttemptFlow.ForgotPassword {
        return Err(Refused(PolicyMisconfigured));
      }
      r := IssueAndSend(tokens, mail, PasswordReset, email, lifetime, secret, now, up);
    }

    method ConfirmVerification(admitted: AttemptFlow, tokens: Tokens, presented: string, now: int, up: nat)
      returns (r: Result<UserId, ServiceError>)
      modifies users, tokens
      ensures admitted != VerificationComplete ==>
        r == Err(Refused(PolicyMisconfigured)) && tokens.rows == old(tokens.rows) && users.rows == old(users.rows)
      ensures admitted == VerificationComplete ==>
        (users.rows, tokens.rows, r) == ConfirmIn(old(users.rows), old(tokens.rows), presented, now, up)
    {
      if admitted != VerificationComplete {
        return Err(Refused(PolicyMisconfigured));
      }
      var secret := FromWire(Verification, presented);
      if secret.None? {
        return Err(Refused(CredentialNoLongerValid));
      }
      if up == 0 {
        return Err(Storage);
      }
      var owner := tokens.Consume(Digest(secret.value), now);
      if owner.None? {
        return Err(Refused(CredentialNoLongerValid));
      }
      if up == 1 {
        return Err(Storage);
      }
      users.MarkEmailVerified(owner.value, now);
      return Ok(owner.value);
    }

    /** The token decides whose password changes, and is spent before the new password is looked at. */
    method ResetPassword(
        admitted: AttemptFlow, tokens: Tokens, presented: string, password: string,
        salt: Option<Salt>, now: int, up: nat)
      returns (r: Result<UserId, ServiceError>)
      modifies credentials, tokens
      ensures admitted != AttemptFlow.ResetPassword ==>
        r == Err(Refused(PolicyMisconfigured)) && tokens.rows == old(tokens.rows)
        && credentials.rows == old(credentials.rows)
      ensures admitted == AttemptFlow.ResetPassword ==>
        (credentials.rows, tokens.rows, r)
          == ResetIn(passwords, old(credentials.rows), old(tokens.rows), presented, password, salt, now, up)
      ensures r == Err(Refused(PasswordRejected)) <==>
        admitted == AttemptFlow.ResetPassword && tokens.rows != old(tokens.rows) && IsBad(passwords, password)
    {
      if admitted != AttemptFlow.ResetPassword {
        return Err(Refused(PolicyMisconfigured));
      }
      var secret := FromWire(PasswordReset, presented);
      if secret.None? {
        return Err(Refused(CredentialNoLongerValid));
      }
      if up == 0 {
        return Err(Storage);
      }
      var owner := tokens.Consume(Digest(secret.value), now);
      if owner.None? {
        return Err(Refused(CredentialNoLongerValid));
      }
      var length := |passwords.normalise(password)|;
      if length < passwords.minimum || length > passwords.maximum || passwords.blocked(password) {
        return Err(Refused(PasswordRejected));
      }
      if salt.None? {
        return Err(Refused(EntropyUnavailable));
      }
      var hash := passwords.hash(passwords.normalise(password), salt.value);
      if up == 1 {
        return Err(Storage);
      }
      credentials.Upsert(owner.value, hash);
      return Ok(owner.value);
    }
  }
}

/** Whole serial histories of the account operations, and what they mean for passwords and mailed tokens. */
module AccountHistory {
  import opened Wrappers
  import opened Bytes
  import opened AuthErrors
  import opened Attempts
  import opened Opaque
  import opened Accounts
  import opened AuthenticationService

  datatype Purpose = ForVerification | ForReset

  datatype State = State(
    users: seq<UserRecord>,
    credentials: seq<CredentialRecord>,
    verification: seq<MailedToken>,
    reset: seq<MailedToken>)

  const INIT: State := State([], [], [], [])

  /** One call, with what the ports give it: `up` store calls, and what the entropy source and the mail do. */
  datatype Call =
    | Registering(admitted: AttemptFlow, email: string, password: string, salt: Option<Salt>, up: nat)
    | Sending(admitted: AttemptFlow, purpose: Purpose, email: string, lifetime: TokenLifetime,
              secret: Option<Bytes32>, mailUp: bool, now: int, up: nat)
    | Confirming(admitted: AttemptFlow, presented: string, now: int, up: nat)
    | Resetting(admitted: AttemptFlow, presented: string, password: string, salt: Option<Salt>, now: int, up: nat)

  datatype Reply =
    | Registered(registration: Result<Registration, ServiceError>)
    | Sent(dispatch: Result<DispatchOutcome, ServiceError>)
    | Confirmed(verified: Result<UserId, ServiceError>)
    | WasReset(changed: Result<UserId, ServiceError>)

  function KindOf(purpose: Purpose): OpaqueKind {
    match purpose
    case ForVerification => Verification
    case ForReset => PasswordReset
  }

  function TokensOf(s: State, purpose: Purpose): seq<MailedToken> {
    match purpose
    case ForVerification => s.verification
    case ForReset => s.reset
  }

  function WithTokens(s: State, purpose: Purpose, rows: seq<MailedToken>): State {
    match purpose
    case ForVerification => s.(verification := rows)
    case ForReset => s.(reset := rows)
  }

  /** The flow a call must have been admitted for. */
  function FlowOf(call: Call): AttemptFlow {
    match call
    case Registering(_, _, _, _, _) => Register
    case Sending(_, purpose, _, _, _, _, _, _) =>
      if purpose == ForVerification then VerificationResend else ForgotPassword
    case Confirming(_, _, _, _) => VerificationComplete
    case Resetting(_, _, _, _, _, _) => ResetPassword
  }

  function Step(p: Passwords, s: State, call: Call): (State, Reply) {
    var misused := Refused(PolicyMisconfigured);
    var ok := call.admitted == FlowOf(call);
    match call
    case Registering(_, email, password, salt, up) =>
      if !ok then (s, Registered(Err(misused)))
      else
        var (users, credentials, r) := RegisterIn(p, s.users, s.credentials, email, password, salt, up);
        (s.(users := users, credentials := credentials), Registered(r))
    case Sending(_, purpose, email, lifetime, secret, mailUp, now, up) =>
      if !ok then (s, Sent(Err(misused)))
      else
        var (rows, r) :=
          SendIn(s.users, TokensOf(s, purpose), KindOf(purpose), email, lifetime, secret, mailUp, now, up);
        (WithTokens(s, purpose, rows), Sent(r))
    case Confirming(_, presented, now, up) =>
      if !ok then (s, Confirmed(Err(misused)))
      else
        var (users, rows, r) := ConfirmIn(s.users, s.verification, presented, now, up);
        (s.(users := users, verification := rows), Confirmed(r))
    case Resetting(_, presented, password, salt, now, up) =>
      if !ok then (s, WasReset(Err(misused)))
      else
        var (credentials, rows, r) := ResetIn(p, s.credentials, s.reset, presented, password, salt, now, up);
        (s.(credentials := credentials, reset := rows), WasReset(r))
  }

  function After(p: Passwords, calls: seq<Call>): State {
    if calls == [] then INIT else Step(p, After(p, calls[..|calls| - 1]), calls[|calls| - 1]).0
  }

  /** The reply to the last call of a history. */
  function LastReply(p: Passwords, calls: seq<Call>): Reply
    requires calls != []
  {
    Step(p, After(p, calls[..|calls| - 1]), calls[|calls| - 1]).1
  }

  // ---- Users: identities and addresses are fixed, the first confirming instant is kept -----------

  predicate UsersInv(users: seq<UserRecord>) {
    && (forall i :: 0 <= i < |users| ==> users[i].id == i + 1)
    && (forall i, j :: 0 <= i < j < |users| ==> users[i].email != users[j].email)
  }

  predicate UserKept(a: UserRecord, b: UserRecord) {
    a.id == b.id && a.email == b.email && (a.verifiedAt.Some? ==> b.verifiedAt == a.verifiedAt)
  }

  predicate UsersExtend(a: seq<UserRecord>, b: seq<UserRecord>) {
    |a| <= |b| && forall i :: 0 <= i < |a| ==> UserKept(a[i], b[i])
  }

  lemma VerifyingKeepsUsers(users: seq<UserRecord>, id: UserId, now: int)
    requires UsersInv(users) && 1 <= id <= |users|
    ensures var after := users[id - 1 := Verified(users[id - 1], id, now)];
      UsersInv(after) && UsersExtend(users, after)
  {
  }

  lemma MarkingKeepsUsers(users: seq<UserRecord>, id: UserId, now: int)
    requires UsersInv(users)
    ensures MarkedVerified(users, id, now)
      == if 1 <= id <= |users| then users[id - 1 := Verified(users[id - 1], id, now)] else users
    ensures UsersInv(MarkedVerified(users, id, now)) && UsersExtend(users, MarkedVerified(users, id, now))
  {
    if 1 <= id <= |users| {
      MarkedVerifiedAt(users, id, now, id - 1);
      VerifyingKeepsUsers(users, id, now);
    } else {
      MarkedVerifiedNowhere(users, id, now);
    }
  }

  lemma NewUserKeepsUsers(users: seq<UserRecord>, email: string)
    requires UsersInv(users) && UserAt(users, email).None?
    ensures var more := users + [NewUser(users, email)];
      && UsersInv(more) && UsersExtend(users, more)
      && forall e :: UserAt(users, e).Some? || e == email ==> UserAt(more, e).Some?
  {
    var more := users + [NewUser(users, email)];
    assert more[..|more| - 1] == users;
  }

  lemma RegisterKeepsUsers(
      p: Passwords, users: seq<UserRecord>, credentials: seq<CredentialRecord>,
      email: string, password: string, salt: Option<Salt>, up: nat)
    requires UsersInv(users)
    ensures var after := RegisterIn(p, users, credentials, email, password, salt, up).0;
      UsersInv(after) && UsersExtend(users, after)
  {
    if UserAt(users, email).None? {
      NewUserKeepsUsers(users, email);
    }
  }

  lemma ConfirmKeepsUsers(users: seq<UserRecord>, rows: seq<MailedToken>, presented: string, now: int, up: nat)
    requires UsersInv(users)
    ensures var after := ConfirmIn(users, rows, presented, now, up).0; UsersInv(after) && UsersExtend(users, after)
  {
    var secret := Parsed(Verification, presented);
    if secret.Some? {
      var i := ConsumableAt(rows, Digest(secret.value), now);
      if i.Some? {
        MarkingKeepsUsers(users, rows[i.value].owner, now);
      }
    }
  }

  lemma StepKeepsUsers(p: Passwords, s: State, call: Call)
    requires UsersInv(s.users)
    ensures UsersInv(Step(p, s, call).0.users) && UsersExtend(s.users, Step(p, s, call).0.users)
  {
    match call
    case Confirming(_, presented, now, up) => ConfirmKeepsUsers(s.users, s.verification, presented, now, up);
    case Registering(_, email, password, salt, up) =>
      RegisterKeepsUsers(p, s.users, s.credentials, email, password, salt, up);
    case _ =>
  }

  lemma {:induction false} UsersHold(p: Passwords, calls: seq<Call>)
    ensures UsersInv(After(p, calls).users)
  {
    if calls != [] {
      UsersHold(p, calls[..|calls| - 1]);
      StepKeepsUsers(p, After(p, calls[..|calls| - 1]), calls[|calls| - 1]);
    }
  }

  /** Over any continuation of any history, a recorded confirmation instant never changes. */
  lemma {:induction false} FirstConfirmationIsKept(p: Passwords, calls: seq<Call>, more: seq<Call>)
    ensures UsersExtend(After(p, calls).users, After(p, calls + more).users)
  {
    if more == [] {
      assert calls + more == calls;
    } else {
      var before := calls + more[..|more| - 1];
      FirstConfirmationIsKept(p, calls, more[..|more| - 1]);
      assert (calls + more)[..|calls + more| - 1] == before;
      UsersHold(p, before);
      StepKeepsUsers(p, After(p, before), more[|more| - 1]);
      var a, b, c := After(p, calls).users, After(p, before).users, After(p, calls + more).users;
      forall i | 0 <= i < |a|
        ensures UserKept(a[i], c[i])
      {
        assert UserKept(a[i], b[i]) && UserKept(b[i], c[i]);
      }
    }
  }

  // ---- Login refines a plain map from address to password ------------------------------------

  /** Which account has which address, and the password last set for an address: a plain map, with no store. */
  datatype Book = Book(owners: map<UserId, string>, passwords: map<string, string>)

  /**
   * Kept from the calls and their replies alone. A registration whose second store call failed has made an account
   * without a credential; a reset that failed has set nothing.
   */
  function BookStep(book: Book, call: Call, reply: Reply): Book {
    match (call, reply)
    case (Registering(_, email, password, _, _), Registered(Ok(Created(id)))) =>
      Book(book.owners[id := email], book.passwords[email := password])
    case (Registering(_, email, _, _, up), Registered(Err(Storage))) =>
      if up == 0 then book else book.(owners := book.owners[|book.owners| + 1 := email])
    case (Resetting(_, _, password, _, _, _), WasReset(Ok(id))) =>
      if id in book.owners then book.(passwords := book.passwords[book.owners[id] := password]) else book
    case _ => book
  }

  function BookAfter(p: Passwords, calls: seq<Call>): Book {
    if calls == [] then Book(map[], map[])
    else BookStep(BookAfter(p, calls[..|calls| - 1]), calls[|calls| - 1], LastReply(p, calls))
  }

  /** The stored hash accepts exactly the spellings of one password. */
  ghost predicate HashFor(p: Passwords, hash: PasswordHash, password: string) {
    forall candidate :: Matches(p, candidate, hash) <==> p.normalise(candidate) == p.normalise(password)
  }

  /** An account has a credential exactly when its address has a password, and it is that password's. */
  ghost predicate CredentialInv(p: Passwords, s: State, book: Book, i: nat)
    requires i < |s.users|
  {
    var credential, email := CredentialOf(s.credentials, i + 1), s.users[i].email;
    && i + 1 in book.owners && book.owners[i + 1] == email
    && (credential.Some? <==> email in book.passwords)
    && (credential.Some? ==> HashFor(p, credential.value.hash, book.passwords[email]))
  }

  ghost predicate BookInv(p: Passwords, s: State, book: Book) {
    && UsersInv(s.users)
    && |book.owners| == |s.users| && (forall id :: id in book.owners ==> 1 <= id <= |s.users|)
    && (forall email :: email in book.passwords ==> UserAt(s.users, email).Some?)
    && (forall i: nat :: i < |s.users| ==> CredentialInv(p, s, book, i))
    && (forall id: nat :: CredentialOf(s.credentials, id).Some? ==> 1 <= id <= |s.users|)
    && (forall k :: 0 <= k < |s.reset| ==> 1 <= s.reset[k].owner <= |s.users|)
  }

  lemma FreshHashIsFor(p: Passwords, password: string, salt: Salt)
    requires Ideal(p)
    ensures HashFor(p, p.hash(p.normalise(password), salt), password)
  {
  }

  lemma UserIsFound(users: seq<UserRecord>, i: nat)
    requires UsersInv(users) && i < |users|
    ensures UserAt(users, users[i].email) == Some(i)
  {
    FirstUserIs(users, users[i].email, i);
  }

  /** A new account, still without a credential, has its own line in the book and disturbs no other. */
  lemma NewAccountCredentials(p: Passwords, s: State, book: Book, email: string, i: nat)
    requires BookInv(p, s, book) && UserAt(s.users, email).None? && i <= |s.users|
    ensures CredentialInv(p, s.(users := s.users + [NewUser(s.users, email)]),
                          book.(owners := book.owners[|book.owners| + 1 := email]), i)
  {
    if i < |s.users| {
      assert CredentialInv(p, s, book, i);
    } else {
      assert CredentialOf(s.credentials, i + 1).None?;
      assert email !in book.passwords;
    }
  }

  /** The account row was committed and its credential was not: nobody can log in to it until it is reset. */
  lemma HalfRegisterKeepsBook(p: Passwords, s: State, book: Book, email: string)
    requires BookInv(p, s, book) && UserAt(s.users, email).None?
    ensures BookInv(p, s.(users := s.users + [NewUser(s.users, email)]),
                    book.(owners := book.owners[|book.owners| + 1 := email]))
  {
    var t := s.(users := s.users + [NewUser(s.users, email)]);
    var later := book.(owners := book.owners[|book.owners| + 1 := email]);
    NewUserKeepsUsers(s.users, email);
    forall i: nat | i < |t.users|
      ensures CredentialInv(p, t, later, i)
    {
      NewAccountCredentials(p, s, book, email, i);
    }
  }

  lemma ResetKeepsBook(p: Passwords, s: State, book: Book, owner: UserId, password: string, salt: Salt)
    requires Ideal(p) && BookInv(p, s, book) && 1 <= owner <= |s.users|
    ensures owner in book.owners
    ensures BookInv(p, s.(credentials := Upserted(s.credentials, owner, p.hash(p.normalise(password), salt))),
                    book.(passwords := book.passwords[book.owners[owner] := password]))
  {
    var hash := p.hash(p.normalise(password), salt);
    var t := s.(credentials := Upserted(s.credentials, owner, hash));
    assert CredentialInv(p, s, book, owner - 1);
    var email := s.users[owner - 1].email;
    var later := book.(passwords := book.passwords[email := password]);
    FreshHashIsFor(p, password, salt);
    UserIsFound(s.users, owner - 1);
    forall i: nat | i < |t.users|
      ensures CredentialInv(p, t, later, i)
    {
      UpsertIsAMapUpdate(s.credentials, owner, hash, i + 1);
      assert CredentialInv(p, s, book, i);
      if i + 1 != owner {
        assert s.users[i].email != email;
      }
    }
    forall id: nat | CredentialOf(t.credentials, id).Some?
      ensures 1 <= id <= |t.users|
    {
      UpsertIsAMapUpdate(s.credentials, owner, hash, id);
    }
  }

  /** A registration is a half registration, and then the first setting of the password. */
  lemma RegisterKeepsBook(p: Passwords, s: State, book: Book, email: string, password: string, salt: Salt)
    requires Ideal(p) && BookInv(p, s, book) && UserAt(s.users, email).None?
    ensures var user := NewUser(s.users, email);
      var t := s.(users := s.users + [user],
                  credentials := Upserted(s.credentials, user.id, p.hash(p.normalise(password), salt)));
      BookInv(p, t, Book(book.owners[user.id := email], book.passwords[email := password]))
  {
    HalfRegisterKeepsBook(p, s, book, email);
    var user := NewUser(s.users, email);
    ResetKeepsBook(
      p, s.(users := s.users + [user]), book.(owners := book.owners[user.id := email]), user.id, password, salt);
  }

  /** Changing which reset tokens are spent, or who is verified, leaves every password where it was. */
  lemma OtherStepsKeepBook(p: Passwords, s: State, t: State, book: Book)
    requires BookInv(p, s, book) && t.credentials == s.credentials
    requires UsersInv(t.users) && |t.users| == |s.users| && UsersExtend(s.users, t.users)
    requires forall k :: 0 <= k < |t.reset| ==> 1 <= t.reset[k].owner <= |t.users|
    ensures BookInv(p, t, book)
  {
    forall i: nat | i < |t.users|
      ensures CredentialInv(p, t, book, i)
    {
      assert CredentialInv(p, s, book, i);
    }
    forall email | email in book.passwords
      ensures UserAt(t.users, email).Some?
    {
      var i := UserAt(s.users, email).value;
      assert UserKept(s.users[i], t.users[i]);
    }
  }

  lemma RegisteringKeepsBook(p: Passwords, s: State, book: Book, call: Call)
    requires Ideal(p) && BookInv(p, s, book) && call.Registering?
    ensures BookInv(p, Step(p, s, call).0, BookStep(book, call, Step(p, s, call).1))
  {
    if Step(p, s, call).0 != s {
      if call.up == 1 {
        HalfRegisterKeepsBook(p, s, book, call.email);
      } else {
        RegisterKeepsBook(p, s, book, call.email, call.password, call.salt.value);
      }
    }
  }

  lemma SendingKeepsBook(p: Passwords, s: State, book: Book, call: Call)
    requires BookInv(p, s, book) && call.Sending?
    ensures BookInv(p, Step(p, s, call).0, BookStep(book, call, Step(p, s, call).1))
  {
    var i := UserAt(s.users, call.email);
    assert i.Some? ==> s.users[i.value].id == i.value + 1;
    OtherStepsKeepBook(p, s, Step(p, s, call).0, book);
  }

  lemma ConfirmingKeepsBook(p: Passwords, s: State, book: Book, call: Call)
    requires BookInv(p, s, book) && call.Confirming?
    ensures BookInv(p, Step(p, s, call).0, BookStep(book, call, Step(p, s, call).1))
  {
    StepKeepsUsers(p, s, call);
    ConfirmingOnlyMarks(p, s, call);
    OtherStepsKeepBook(p, s, Step(p, s, call).0, book);
  }

  lemma ConfirmingOnlyMarks(p: Passwords, s: State, call: Call)
    requires UsersInv(s.users) && call.Confirming?
    ensures var t := Step(p, s, call).0;
      |t.users| == |s.users| && t.credentials == s.credentials && t.reset == s.reset
  {
    var secret := Parsed(Verification, call.presented);
    if secret.Some? {
      var i := ConsumableAt(s.verification, Digest(secret.value), call.now);
      if i.Some? {
        MarkingKeepsUsers(s.users, s.verification[i.value].owner, call.now);
      }
    }
  }

  lemma ResettingKeepsBook(p: Passwords, s: State, book: Book, call: Call)
    requires Ideal(p) && BookInv(p, s, book) && call.Resetting?
    ensures BookInv(p, Step(p, s, call).0, BookStep(book, call, Step(p, s, call).1))
  {
    var (t, reply) := Step(p, s, call);
    var spent := s.(reset := t.reset);
    OtherStepsKeepBook(p, s, spent, book);
    if reply.changed.Ok? {
      ResetKeepsBook(p, spent, book, reply.changed.value, call.password, call.salt.value);
    }
  }

  lemma {:induction false} BookHolds(p: Passwords, calls: seq<Call>)
    requires Ideal(p)
    ensures BookInv(p, After(p, calls), BookAfter(p, calls))
  {
    if calls != [] {
      var prefix, call := calls[..|calls| - 1], calls[|calls| - 1];
      BookHolds(p, prefix);
      match call
      case Registering(_, _, _, _, _) => RegisteringKeepsBook(p, After(p, prefix), BookAfter(p, prefix), call);
      case Sending(_, _, _, _, _, _, _, _) => SendingKeepsBook(p, After(p, prefix), BookAfter(p, prefix), call);
      case Confirming(_, _, _, _) => ConfirmingKeepsBook(p, After(p, prefix), BookAfter(p, prefix), call);
      case Resetting(_, _, _, _, _, _) => ResettingKeepsBook(p, After(p, prefix), BookAfter(p, prefix), call);
    }
  }

  lemma LoginAgrees(
      p: Passwords, s: State, book: Book, email: string, password: string, absent: Option<UserId>, up: nat)
    requires BookInv(p, s, book)
    ensures var r := LogInWith(p, s.users, s.credentials, email, password, absent, up);
      && (r.Ok? <==> up >= 2 && absent.Some? && email in book.passwords
                     && p.normalise(password) == p.normalise(book.passwords[email]))
      && (r.Ok? ==> r.value.user in book.owners && book.owners[r.value.user] == email
                    && CredentialOf(s.credentials, r.value.user).Some?
                    && r.value.mustChangePassword == CredentialOf(s.credentials, r.value.user).value.mustChange)
  {
    var i := UserAt(s.users, email);
    if i.Some? {
      assert CredentialInv(p, s, book, i.value);
      assert s.users[i.value].id == i.value + 1;
    }
  }

  /**
   * Login refinement: after any serial history, whatever failed in it, a login succeeds exactly when the ports it
   * needs answer and the password normalises to the one last set for that address, by the registration that created
   * the account or by a successful reset; and it names the account of that address. An account whose registration
   * failed between its two store calls has no password until it is reset.
   */
  lemma LoginRefinesTheBook(
      p: Passwords, calls: seq<Call>, email: string, password: string, absent: Option<UserId>, up: nat)
    requires Ideal(p)
    ensures var s, book := After(p, calls), BookAfter(p, calls);
      var r := LogInWith(p, s.users, s.credentials, email, password, absent, up);
      && (r.Ok? <==> up >= 2 && absent.Some? && email in book.passwords
                     && p.normalise(password) == p.normalise(book.passwords[email]))
      && (r.Ok? ==> r.value.user in book.owners && book.owners[r.value.user] == email && !r.value.mustChangePassword)
  {
    BookHolds(p, calls);
    var s := After(p, calls);
    LoginAgrees(p, s, BookAfter(p, calls), email, password, absent, up);
    var r := LogInWith(p, s.users, s.credentials, email, password, absent, up);
    if r.Ok? {
      CredentialsAreCurrent(p, calls, r.value.user);
    }
  }

  /** No operation ever stores a credential that must be changed. */
  lemma {:induction false} CredentialsAreCurrent(p: Passwords, calls: seq<Call>, id: UserId)
    ensures var c := CredentialOf(After(p, calls).credentials, id); c.Some? ==> !c.value.mustChange
  {
    if calls != [] {
      var s, call := After(p, calls[..|calls| - 1]), calls[|calls| - 1];
      CredentialsAreCurrent(p, calls[..|calls| - 1], id);
      match call
      case Registering(_, email, password, salt, _) =>
        if salt.Some? {
          UpsertIsAMapUpdate(s.credentials, NewUser(s.users, email).id, p.hash(p.normalise(password), salt.value), id);
        }
      case Resetting(_, presented, password, salt, now, _) =>
        var secret := Parsed(PasswordReset, presented);
        if secret.Some? && salt.Some? {
          var i := ConsumableAt(s.reset, Digest(secret.value), now);
          if i.Some? {
            UpsertIsAMapUpdate(s.credentials, s.reset[i.value].owner, p.hash(p.normalise(password), salt.value), id);
          }
        }
      case _ =>
    }
  }
}

/**
 * Registrations and resets in flight at once. Each is two store calls: a registration commits the user's row and
 * then upserts the credential, a reset consumes its token and then upserts. Other calls run in between. One step is
 * one store call, or a worker giving up; a step that is not enabled does nothing.
 */
module AccountProtocol {
  import opened Wrappers
  import opened Bytes
  import opened FiniteSets
  import opened AuthErrors
  import opened Opaque
  import opened Accounts
  import opened AuthenticationService
  import opened AccountHistory

  datatype Kind = Registration | Reset

  /** The upsert a worker still owes. Tickets number, in order, the calls that begin and that finish an operation. */
  datatype Setting = Setting(owner: UserId, kind: Kind, password: string, hash: PasswordHash, ticket: nat)

  /** An operation that succeeded. */
  datatype Op = Op(owner: UserId, kind: Kind, password: string, began: nat, ended: nat)

  datatype Entry = Entry(password: string, ticket: nat)

  /**
   * `book` holds, for each account, the password of the operation that began last among those that succeeded.
   * `born` holds the ticket that made the account, and `done` the operations that succeeded, as they finished.
   */
  datatype World = World(
    users: seq<UserRecord>, credentials: seq<CredentialRecord>, reset: seq<MailedToken>,
    owed: map<nat, Setting>, tickets: nat, book: map<UserId, Entry>, born: map<UserId, nat>, done: seq<Op>)

  const NOBODY: World := World([], [], [], map[], 0, map[], map[], [])

  datatype Step =
    | Enrol(worker: nat, email: string, password: string, salt: Salt)
    | Sweep(owner: UserId, now: int)
    | Issue(owner: UserId, secret: Bytes32, expiresAt: int)
    | Consume(worker: nat, digest: SecretDigest, password: string, salt: Salt, now: int)
    | Finish(worker: nat)
    | GiveUp(worker: nat)

  /** `worker` has made the first call of an operation that sets `owner`'s password. */
  function Owing(
      p: Passwords, w: World, worker: nat, owner: UserId, kind: Kind, password: string, salt: Salt): World
  {
    var setting := Setting(owner, kind, password, p.hash(p.normalise(password), salt), w.tickets);
    w.(owed := w.owed[worker := setting], tickets := w.tickets + 1)
  }

  /** The address has an account from now on. */
  function Born(w: World, email: string): World {
    var user := NewUser(w.users, email);
    w.(users := w.users + [user], born := w.born[user.id := w.tickets])
  }

  function Finished(w: World, worker: nat): World
    requires worker in w.owed
  {
    var s := w.owed[worker];
    w.(credentials := Upserted(w.credentials, s.owner, s.hash),
       owed := w.owed - {worker}, tickets := w.tickets + 1,
       done := w.done + [Op(s.owner, s.kind, s.password, s.ticket, w.tickets)],
       book := if IsLate(w, worker) then w.book else w.book[s.owner := Entry(s.password, s.ticket)])
  }

  function Apply(p: Passwords, w: World, step: Step): World {
    match step
    case Enrol(worker, email, password, salt) =>
      if worker in w.owed || !Acceptable(p, password) || UserAt(w.users, email).Some? then w
      else
        var user := NewUser(w.users, email);
        Owing(p, Born(w, email), worker, user.id, Registration, password, salt)
    case Sweep(owner, now) => w.(reset := InvalidatedFor(w.reset, owner, now))
    case Issue(owner, secret, expiresAt) =>
      if !(1 <= owner <= |w.users|) then w
      else w.(reset := WithIssued(w.reset, owner, Digest(Opaque(PasswordReset, secret)), expiresAt))
    case Consume(worker, digest, password, salt, now) =>
      var i := ConsumableAt(w.reset, digest, now);
      if worker in w.owed || i.None? then w
      else
        var spent := w.(reset := ConsumedAt(w.reset, i.value, now));
        if Acceptable(p, password) then Owing(p, spent, worker, w.reset[i.value].owner, Reset, password, salt)
        else spent
    case Finish(worker) => if worker in w.owed then Finished(w, worker) else w
    case GiveUp(worker) => w.(owed := w.owed - {worker})
  }

  function Run(p: Passwords, w: World, steps: seq<Step>): World {
    if steps == [] then w
    else Apply(p, Run(p, w, steps[..|steps| - 1]), steps[|steps| - 1])
  }

  /** An operation on the same account that began later has already finished. */
  predicate IsLate(w: World, worker: nat)
    requires worker in w.owed
  {
    var s := w.owed[worker];
    s.owner in w.book && w.book[s.owner].ticket > s.ticket
  }

  // ---- The invariant ---------------------------------------------------------------------------

  ghost predicate OwedInv(p: Passwords, w: World, worker: nat)
    requires worker in w.owed
  {
    var s := w.owed[worker];
    1 <= s.owner <= |w.users| && s.ticket < w.tickets && HashFor(p, s.hash, s.password)
  }

  ghost predicate Inv(p: Passwords, w: World) {
    && UsersInv(w.users)
    && (forall worker :: worker in w.owed ==> OwedInv(p, w, worker))
    && (forall id :: id in w.book ==> 1 <= id <= |w.users| && w.book[id].ticket < w.tickets)
    && (forall id: UserId :: id in w.book <==> CredentialOf(w.credentials, id).Some?)
    && (forall k :: 0 <= k < |w.reset| ==> 1 <= w.reset[k].owner <= |w.users|)
  }

  lemma OwingKeepsInv(
      p: Passwords, w: World, worker: nat, owner: UserId, kind: Kind, password: string, salt: Salt)
    requires Ideal(p) && Inv(p, w) && 1 <= owner <= |w.users|
    ensures Inv(p, Owing(p, w, worker, owner, kind, password, salt))
  {
    var t := Owing(p, w, worker, owner, kind, password, salt);
    FreshHashIsFor(p, password, salt);
    forall other | other in t.owed
      ensures OwedInv(p, t, other)
    {
      assert other != worker ==> OwedInv(p, w, other);
    }
  }

  lemma MoreUsersKeepInv(p: Passwords, w: World, email: string)
    requires Inv(p, w) && UserAt(w.users, email).None?
    ensures Inv(p, Born(w, email))
  {
    NewUserKeepsUsers(w.users, email);
    var t := Born(w, email);
    forall worker | worker in t.owed
      ensures OwedInv(p, t, worker)
    {
      assert OwedInv(p, w, worker);
    }
  }

  lemma FewerOwedKeepInv(p: Passwords, w: World, t: World)
    requires Inv(p, w) && t.owed.Keys <= w.owed.Keys && t == w.(owed := t.owed)
    requires forall worker :: worker in t.owed ==> t.owed[worker] == w.owed[worker]
    ensures Inv(p, t)
  {
    forall worker | worker in t.owed
      ensures OwedInv(p, t, worker)
    {
      assert OwedInv(p, w, worker);
    }
  }

  lemma FinishKeepsInv(p: Passwords, w: World, worker: nat)
    requires Inv(p, w) && worker in w.owed
    ensures Inv(p, Finished(w, worker))
  {
    var s, t := w.owed[worker], Finished(w, worker);
    assert OwedInv(p, w, worker);
    forall id: UserId
      ensures id in t.book <==> CredentialOf(t.credentials, id).Some?
    {
      UpsertIsAMapUpdate(w.credentials, s.owner, s.hash, id);
    }
    forall other | other in t.owed
      ensures OwedInv(p, t, other)
    {
      assert OwedInv(p, w, other);
    }
  }

  /** The token store may change as it likes, as long as its rows keep naming accounts. */
  lemma TokensKeepInv(p: Passwords, w: World, rows: seq<MailedToken>)
    requires Inv(p, w) && forall k :: 0 <= k < |rows| ==> 1 <= rows[k].owner <= |w.users|
    ensures Inv(p, w.(reset := rows))
  {
    var t := w.(reset := rows);
    forall worker | worker in t.owed
      ensures OwedInv(p, t, worker)
    {
      assert OwedInv(p, w, worker);
    }
  }

  lemma StepKeepsInv(p: Passwords, w: World, step: Step)
    requires Ideal(p) && Inv(p, w)
    ensures Inv(p, Apply(p, w, step))
  {
    match step
    case Enrol(worker, email, password, salt) =>
      if worker !in w.owed && Acceptable(p, password) && UserAt(w.users, email).None? {
        var user := NewUser(w.users, email);
        MoreUsersKeepInv(p, w, email);
        OwingKeepsInv(p, Born(w, email), worker, user.id, Registration, password, salt);
      }
    case Sweep(owner, now) => TokensKeepInv(p, w, InvalidatedFor(w.reset, owner, now));
    case Issue(owner, secret, expiresAt) =>
      if 1 <= owner <= |w.users| {
        TokensKeepInv(p, w, WithIssued(w.reset, owner, Digest(Opaque(PasswordReset, secret)), expiresAt));
      }
    case Consume(worker, digest, password, salt, now) =>
      var i := ConsumableAt(w.reset, digest, now);
      if worker !in w.owed && i.Some? {
        var spent := w.(reset := ConsumedAt(w.reset, i.value, now));
        TokensKeepInv(p, w, spent.reset);
        OwingKeepsInv(p, spent, worker, w.reset[i.value].owner, Reset, password, salt);
      }
    case Finish(worker) =>
      if worker in w.owed {
        FinishKeepsInv(p, w, worker);
      }
    case GiveUp(worker) => FewerOwedKeepInv(p, w, Apply(p, w, step));
  }

  lemma {:induction false} InvHolds(p: Passwords, steps: seq<Step>)
    requires Ideal(p)
    ensures Inv(p, Run(p, NOBODY, steps))
  {
    if steps != [] {
      InvHolds(p, steps[..|steps| - 1]);
      StepKeepsInv(p, Run(p, NOBODY, steps[..|steps| - 1]), steps[|steps| - 1]);
    }
  }

  // ---- Exactly when the book survives ----------------------------------------------------------

  /** The stored credential accepts exactly the password the book has for the account. */
  ghost predicate Shows(p: Passwords, w: World, owner: UserId) {
    owner in w.book ==>
      var credential := CredentialOf(w.credentials, owner);
      credential.Some? && HashFor(p, credential.value.hash, w.book[owner].password)
  }

  ghost predicate AllShow(p: Passwords, w: World) {
    forall owner: UserId :: Shows(p, w, owner)
  }

  /** The step finishes an operation after a later one on the account, with a password that is not the later one's. */
  predicate Overwrites(p: Passwords, w: World, step: Step) {
    && step.Finish? && step.worker in w.owed && IsLate(w, step.worker)
    && var s := w.owed[step.worker]; p.normalise(s.password) != p.normalise(w.book[s.owner].password)
  }

  lemma HashesOfOnePassword(p: Passwords, hash: PasswordHash, password: string, other: string)
    requires HashFor(p, hash, password)
    ensures HashFor(p, hash, other) <==> p.normalise(password) == p.normalise(other)
  {
    if HashFor(p, hash, other) {
      assert Matches(p, password, hash);
    }
  }

  /** Once a worker finishes, the account shows the book exactly if the step was no overwriting. */
  lemma FinishShowsExactly(p: Passwords, w: World, worker: nat)
    requires Inv(p, w) && worker in w.owed
    ensures Shows(p, Finished(w, worker), w.owed[worker].owner) <==> !Overwrites(p, w, Finish(worker))
  {
    var s, t := w.owed[worker], Finished(w, worker);
    assert OwedInv(p, w, worker);
    UpsertIsAMapUpdate(w.credentials, s.owner, s.hash, s.owner);
    HashesOfOnePassword(p, s.hash, s.password, t.book[s.owner].password);
  }

  /** A step touches no account's credential or line in the book but that of an operation it finishes. */
  lemma OtherAccountsShowAlike(p: Passwords, w: World, step: Step, owner: UserId)
    requires step.Finish? && step.worker in w.owed ==> w.owed[step.worker].owner != owner
    ensures Shows(p, Apply(p, w, step), owner) <==> Shows(p, w, owner)
  {
    if step.Finish? && step.worker in w.owed {
      var s := w.owed[step.worker];
      UpsertIsAMapUpdate(w.credentials, s.owner, s.hash, owner);
    }
  }

  lemma StepShowsExactly(p: Passwords, w: World, step: Step)
    requires Inv(p, w) && AllShow(p, w)
    ensures AllShow(p, Apply(p, w, step)) <==> !Overwrites(p, w, step)
  {
    forall owner: UserId | !(step.Finish? && step.worker in w.owed && w.owed[step.worker].owner == owner)
      ensures Shows(p, Apply(p, w, step), owner)
    {
      OtherAccountsShowAlike(p, w, step, owner);
    }
    if step.Finish? && step.worker in w.owed {
      FinishShowsExactly(p, w, step.worker);
    }
  }

  ghost predicate ShowsThroughout(p: Passwords, steps: seq<Step>) {
    forall n :: 0 <= n <= |steps| ==> AllShow(p, Run(p, NOBODY, steps[..n]))
  }

  predicate NothingOverwritten(p: Passwords, steps: seq<Step>) {
    forall n :: 0 <= n < |steps| ==> !Overwrites(p, Run(p, NOBODY, steps[..n]), steps[n])
  }

  lemma ShowsNext(p: Passwords, steps: seq<Step>, n: nat)
    requires Ideal(p) && n < |steps| && AllShow(p, Run(p, NOBODY, steps[..n]))
    ensures AllShow(p, Run(p, NOBODY, steps[..n + 1])) <==> !Overwrites(p, Run(p, NOBODY, steps[..n]), steps[n])
  {
    RunNext(p, steps, n);
    InvHolds(p, steps[..n]);
    StepShowsExactly(p, Run(p, NOBODY, steps[..n]), steps[n]);
  }

  lemma NobodyShows(p: Passwords, steps: seq<Step>)
    requires steps == []
    ensures AllShow(p, Run(p, NOBODY, steps))
  {
  }

  lemma {:induction false} ShowsUpTo(p: Passwords, steps: seq<Step>, n: nat)
    requires Ideal(p) && NothingOverwritten(p, steps) && n <= |steps|
    ensures AllShow(p, Run(p, NOBODY, steps[..n]))
  {
    if n == 0 {
      NobodyShows(p, steps[..0]);
    } else {
      ShowsUpTo(p, steps, n - 1);
      ShowsNext(p, steps, n - 1);
    }
  }

  /**
   * The book survives an interleaving, at every point of it, exactly when no worker finishes after a later operation
   * on its account has: the condition can be seen before the upsert, from the operations that have finished.
   */
  lemma BookSurvivesExactly(p: Passwords, steps: seq<Step>)
    requires Ideal(p)
    ensures ShowsThroughout(p, steps) <==> NothingOverwritten(p, steps)
  {
    if ShowsThroughout(p, steps) {
      forall n | 0 <= n < |steps|
        ensures !Overwrites(p, Run(p, NOBODY, steps[..n]), steps[n])
      {
        ShowsNext(p, steps, n);
      }
    }
    if NothingOverwritten(p, steps) {
      forall n | 0 <= n <= |steps|
        ensures AllShow(p, Run(p, NOBODY, steps[..n]))
      {
        ShowsUpTo(p, steps, n);
      }
    }
  }

  /** A login succeeds exactly when its ports answer and the password is the one the book has for the address. */
  predicate LoginFollowsTheBook(
      p: Passwords, w: World, email: string, password: string, absent: Option<UserId>, up: nat)
  {
    var i, r := UserAt(w.users, email), LogInWith(p, w.users, w.credentials, email, password, absent, up);
    r.Ok? <==>
      up >= 2 && absent.Some? && i.Some? && i.value + 1 in w.book
      && p.normalise(password) == p.normalise(w.book[i.value + 1].password)
  }

  lemma LoginReadsTheBook(
      p: Passwords, w: World, email: string, password: string, absent: Option<UserId>, up: nat)
    requires Inv(p, w) && AllShow(p, w)
    ensures LoginFollowsTheBook(p, w, email, password, absent, up)
  {
    var i := UserAt(w.users, email);
    if i.Some? {
      assert Shows(p, w, i.value + 1) && w.users[i.value].id == i.value + 1;
    }
  }

  /** After any run in which nothing was overwritten, every login follows the book. */
  lemma LoginAfterTheRun(
      p: Passwords, steps: seq<Step>, email: string, password: string, absent: Option<UserId>, up: nat)
    requires Ideal(p) && NothingOverwritten(p, steps)
    ensures LoginFollowsTheBook(p, Run(p, NOBODY, steps), email, password, absent, up)
  {
    InvHolds(p, steps);
    ShowsUpTo(p, steps, |steps|);
    assert steps[..|steps|] == steps;
    LoginReadsTheBook(p, Run(p, NOBODY, steps), email, password, absent, up);
  }

  // ---- Concurrency overwrites ------------------------------------------------------------------

  /** Only `team` ever registers or resets. */
  predicate ServedBy(steps: seq<Step>, team: set<nat>) {
    forall i :: 0 <= i < |steps| && (steps[i].Enrol? || steps[i].Consume?) ==> steps[i].worker in team
  }

  /** Whoever owes an upsert began last. */
  predicate Alone(w: World, team: set<nat>) {
    && w.owed.Keys <= team
    && forall worker, id :: worker in w.owed && id in w.book ==> w.book[id].ticket < w.owed[worker].ticket
  }

  lemma StepKeepsAlone(p: Passwords, w: World, step: Step, team: set<nat>)
    requires Inv(p, w) && Alone(w, team) && (forall a, b :: a in team && b in team ==> a == b)
    requires step.Enrol? || step.Consume? ==> step.worker in team
    ensures Alone(Apply(p, w, step), team) && !Overwrites(p, w, step)
  {
  }

  lemma {:induction false} OneWorkerIsAlone(p: Passwords, steps: seq<Step>, team: set<nat>)
    requires Ideal(p) && ServedBy(steps, team) && (forall a, b :: a in team && b in team ==> a == b)
    ensures Alone(Run(p, NOBODY, steps), team) && AllShow(p, Run(p, NOBODY, steps))
  {
    if steps != [] {
      var prefix, step := steps[..|steps| - 1], steps[|steps| - 1];
      OneWorkerIsAlone(p, prefix, team);
      InvHolds(p, prefix);
      StepKeepsAlone(p, Run(p, NOBODY, prefix), step, team);
      StepShowsExactly(p, Run(p, NOBODY, prefix), step);
    }
  }

  /**
   * A registration commits its row; before its upsert, the same address asks for a reset and completes it; then the
   * registration finishes. The reset reported success, and its password is gone.
   */
  function Race(c: nat, d: nat, email: string, first: string, latest: string, secret: Bytes32): seq<Step> {
    [Enrol(c, email, first, 0), Issue(1, secret, 1),
     Consume(d, Digest(Opaque(PasswordReset, secret)), latest, 0, 0), Finish(d), Finish(c)]
  }

  lemma RegistrationOverwritesReset(
      p: Passwords, c: nat, d: nat, email: string, first: string, latest: string, secret: Bytes32)
    requires Ideal(p) && c != d && Acceptable(p, first) && Acceptable(p, latest)
    requires p.normalise(first) != p.normalise(latest)
    ensures var w := Run(p, NOBODY, Race(c, d, email, first, latest, secret));
      && w.book == map[1 := Entry(latest, 1)] && w.owed == map[]
      && LogInWith(p, w.users, w.credentials, email, first, Some(0), 2).Ok?
      && LogInWith(p, w.users, w.credentials, email, latest, Some(0), 2) == Err(Refused(InvalidCredentials))
  {
    var steps := Race(c, d, email, first, latest, secret);
    var begun := RaceBegins(p, c, d, email, first, latest, secret);
    RaceIs(p, steps);
    RaceEnds(p, begun, c, d, email, first, latest);
  }

  lemma RaceIs(p: Passwords, steps: seq<Step>)
    requires |steps| == 5
    ensures Run(p, NOBODY, steps)
      == Apply(p, Apply(p, Apply(p, Apply(p, Apply(p, NOBODY, steps[0]), steps[1]), steps[2]), steps[3]), steps[4])
  {
    RunNext(p, steps, 0);
    RunNext(p, steps, 1);
    RunNext(p, steps, 2);
    RunNext(p, steps, 3);
    RunNext(p, steps, 4);
    assert steps[..0] == [] && steps[..5] == steps;
  }

  lemma RunNext(p: Passwords, steps: seq<Step>, n: nat)
    requires n < |steps|
    ensures Run(p, NOBODY, steps[..n + 1]) == Apply(p, Run(p, NOBODY, steps[..n]), steps[n])
  {
    assert steps[..n + 1][..n] == steps[..n];
  }

  /** Both operations have made their first call. */
  lemma RaceBegins(p: Passwords, c: nat, d: nat, email: string, first: string, latest: string, secret: Bytes32)
    returns (w: World)
    requires c != d && Acceptable(p, first) && Acceptable(p, latest)
    ensures var steps := Race(c, d, email, first, latest, secret);
      w == Apply(p, Apply(p, Apply(p, NOBODY, steps[0]), steps[1]), steps[2])
    ensures w.users == [NewUser([], email)] && w.credentials == [] && w.book == map[]
    ensures w.owed == map[c := Setting(1, Registration, first, p.hash(p.normalise(first), 0), 0),
                          d := Setting(1, Reset, latest, p.hash(p.normalise(latest), 0), 1)]
  {
    var digest := Digest(Opaque(PasswordReset, secret));
    var enrolled := Apply(p, NOBODY, Enrol(c, email, first, 0));
    assert enrolled.users == [NewUser([], email)];
    var issued := Apply(p, enrolled, Issue(1, secret, 1));
    assert issued.reset == [MailedToken(1, digest, 1, None)] && issued.reset[..0] == [];
    assert ConsumableAt(issued.reset, digest, 0) == Some(0);
    w := Apply(p, issued, Consume(d, digest, latest, 0, 0));
  }

  lemma RaceEnds(p: Passwords, w: World, c: nat, d: nat, email: string, first: string, latest: string)
    requires Ideal(p) && c != d && p.normalise(first) != p.normalise(latest)
    requires w.users == [NewUser([], email)] && w.credentials == [] && w.book == map[]
    requires w.owed == map[c := Setting(1, Registration, first, p.hash(p.normalise(first), 0), 0),
                           d := Setting(1, Reset, latest, p.hash(p.normalise(latest), 0), 1)]
    ensures var t := Apply(p, Apply(p, w, Finish(d)), Finish(c));
      && t.book == map[1 := Entry(latest, 1)] && t.owed == map[]
      && LogInWith(p, t.users, t.credentials, email, first, Some(0), 2).Ok?
      && LogInWith(p, t.users, t.credentials, email, latest, Some(0), 2) == Err(Refused(InvalidCredentials))
  {
    var reset := Apply(p, w, Finish(d));
    var t := Apply(p, reset, Finish(c));
    UpsertIsAMapUpdate(reset.credentials, 1, p.hash(p.normalise(first), 0), 1);
    FirstUserIs(t.users, email, 0);
    FreshHashIsFor(p, first, 0);
  }

  /** The book survives every run exactly when at most one worker registers and resets. */
  lemma BookSurvivesExactlyWhenSerial(p: Passwords, team: set<nat>, first: string, latest: string)
    requires Ideal(p) && Acceptable(p, first) && Acceptable(p, latest) && p.normalise(first) != p.normalise(latest)
    ensures (forall steps :: ServedBy(steps, team) ==> AllShow(p, Run(p, NOBODY, steps))) <==> |team| <= 1
  {
    if |team| <= 1 {
      forall a, b | a in team && b in team
        ensures a == b
      {
        if a != b {
          SubsetIsSmaller({a, b}, team);
        }
      }
      forall steps | ServedBy(steps, team)
        ensures AllShow(p, Run(p, NOBODY, steps))
      {
        OneWorkerIsAlone(p, steps, team);
      }
    } else {
      var c :| c in team;
      assert |team - {c}| >= 1;
      var d :| d in team - {c};
      TwoWorkersOverwrite(p, team, c, d, first, latest);
    }
  }

  lemma TwoWorkersOverwrite(p: Passwords, team: set<nat>, c: nat, d: nat, first: string, latest: string)
    requires Ideal(p) && Acceptable(p, first) && Acceptable(p, latest) && p.normalise(first) != p.normalise(latest)
    requires c in team && d in team && c != d
    ensures exists steps :: ServedBy(steps, team) && !AllShow(p, Run(p, NOBODY, steps))
  {
    var steps := Race(c, d, "", first, latest, seq(32, _ => 0));
    RegistrationOverwritesReset(p, c, d, "", first, latest, seq(32, _ => 0));
    InvHolds(p, steps);
    var w := Run(p, NOBODY, steps);
    if AllShow(p, w) {
      LoginReadsTheBook(p, w, "", first, Some(0), 2);
    }
    assert ServedBy(steps, team);
  }

  // ---- The service takes these steps -----------------------------------------------------------

  function RegisterSteps(p: Passwords, worker: nat, email: string, password: string, salt: Option<Salt>, up: nat)
    : seq<Step>
  {
    if !Acceptable(p, password) || salt.None? || up == 0 then []
    else [Enrol(worker, email, password, salt.value), LastStep(worker, salt, up)]
  }

  /** How an operation ends after its first call: `up` store calls succeed in all. */
  function LastStep(worker: nat, salt: Option<Salt>, up: nat): Step {
    if salt.None? || up == 1 then GiveUp(worker) else Finish(worker)
  }

  function ConsumeStep(
      worker: nat, digest: SecretDigest, password: string, salt: Option<Salt>, now: int): Step {
    Consume(worker, digest, password, if salt.Some? then salt.value else 0, now)
  }

  function ResetSteps(worker: nat, presented: string, password: string, salt: Option<Salt>, now: int, up: nat)
    : seq<Step>
  {
    var secret := Parsed(PasswordReset, presented);
    if secret.None? || up == 0 then []
    else [ConsumeStep(worker, Digest(secret.value), password, salt, now), LastStep(worker, salt, up)]
  }

  lemma RunOfTwo(p: Passwords, w: World, a: Step, b: Step)
    ensures Run(p, w, [a, b]) == Apply(p, Apply(p, w, a), b)
  {
    assert [a, b][..1] == [a] && [a][..0] == [];
    assert Run(p, w, [a]) == Apply(p, w, a);
  }

  /** What the two steps of a registration leave, in terms of the stores alone. */
  lemma EnrolThenLast(
      p: Passwords, w: World, worker: nat, email: string, password: string, salt: Salt, up: nat)
    requires worker !in w.owed && Acceptable(p, password) && up >= 1
    ensures var t := Apply(p, Apply(p, w, Enrol(worker, email, password, salt)), LastStep(worker, Some(salt), up));
      var known, user := UserAt(w.users, email).Some?, NewUser(w.users, email);
      && t.reset == w.reset && t.owed == w.owed
      && t.users == (if known then w.users else w.users + [user])
      && t.credentials == if known || up == 1 then w.credentials
                          else Upserted(w.credentials, user.id, p.hash(p.normalise(password), salt))
  {
    var enrolled := Apply(p, w, Enrol(worker, email, password, salt));
    assert enrolled.owed - {worker} == w.owed;
  }

  /** A registration that runs alone is a run of the protocol, whatever fails in it. */
  lemma RegisterIsARun(
      p: Passwords, w: World, worker: nat, email: string, password: string, salt: Option<Salt>, up: nat)
    requires worker !in w.owed
    ensures var t := Run(p, w, RegisterSteps(p, worker, email, password, salt, up));
      var (users, credentials, _) := RegisterIn(p, w.users, w.credentials, email, password, salt, up);
      t.users == users && t.credentials == credentials && t.reset == w.reset && t.owed == w.owed
  {
    var steps := RegisterSteps(p, worker, email, password, salt, up);
    if steps != [] {
      RunOfTwo(p, w, steps[0], steps[1]);
      EnrolThenLast(p, w, worker, email, password, salt.value, up);
    }
  }

  /** What the two steps of a reset leave, in terms of the stores alone. */
  lemma ConsumeThenLast(
      p: Passwords, w: World, worker: nat, digest: SecretDigest, password: string, salt: Option<Salt>,
      now: int, up: nat)
    requires worker !in w.owed && up >= 1
    ensures var consumed := Apply(p, w, ConsumeStep(worker, digest, password, salt, now));
      var t := Apply(p, consumed, LastStep(worker, salt, up));
      var i := ConsumableAt(w.reset, digest, now);
      && t.users == w.users && t.owed == w.owed
      && t.reset == (if i.None? then w.reset else ConsumedAt(w.reset, i.value, now))
      && t.credentials == if i.None? || !Acceptable(p, password) || salt.None? || up == 1 then w.credentials
                          else Upserted(w.credentials, w.reset[i.value].owner,
                                        p.hash(p.normalise(password), salt.value))
  {
    var consumed := Apply(p, w, ConsumeStep(worker, digest, password, salt, now));
    assert consumed.owed - {worker} == w.owed;
  }

  /** A reset that runs alone is a run of the protocol, whatever fails in it. */
  lemma ResetIsARun(
      p: Passwords, w: World, worker: nat, presented: string, password: string, salt: Option<Salt>, now: int, up: nat)
    requires worker !in w.owed
    ensures var t := Run(p, w, ResetSteps(worker, presented, password, salt, now, up));
      var (credentials, rows, _) := ResetIn(p, w.credentials, w.reset, presented, password, salt, now, up);
      t.users == w.users && t.credentials == credentials && t.reset == rows && t.owed == w.owed
  {
    var steps := ResetSteps(worker, presented, password, salt, now, up);
    if steps != [] {
      var secret := Parsed(PasswordReset, presented).value;
      RunOfTwo(p, w, steps[0], steps[1]);
      ConsumeThenLast(p, w, worker, Digest(secret), password, salt, now, up);
    }
  }
}

/**
 * Any number of workers inside `issue_and_send` at once. Sweeping the earlier tokens and issuing the new one
 * are two store calls, so other calls run between them. One step is one store call, or a worker giving up; a
 * step that is not enabled does nothing.
 */
module ResendProtocol {
  import opened Wrappers
  import opened Bytes
  import opened FiniteSets
  import opened Opaque
  import opened Accounts
  import opened AuthenticationService

  /** A worker that has swept and has not yet issued: for whom, and the instant its call was given. */
  datatype Sending = Sending(owner: UserId, now: int)

  datatype World = World(rows: seq<MailedToken>, sending: map<nat, Sending>)

  const INIT: World := World([], map[])

  /** What one repository holds and how long its tokens last. */
  datatype Mailing = Mailing(kind: OpaqueKind, lifetime: TokenLifetime)

  datatype Step =
    | Sweep(worker: nat, owner: UserId, now: int)
    | Issue(worker: nat, secret: Bytes32)
    | GiveUp(worker: nat)
    | Consume(digest: SecretDigest, now: int)

  function Issued(w: World, c: nat, digest: SecretDigest, expiresAt: int): World
    requires c in w.sending
  {
    World(WithIssued(w.rows, w.sending[c].owner, digest, expiresAt), w.sending - {c})
  }

  function Apply(m: Mailing, w: World, step: Step): World {
    match step
    case Sweep(c, owner, now) =>
      if c in w.sending then w
      else World(InvalidatedFor(w.rows, owner, now), w.sending[c := Sending(owner, now)])
    case Issue(c, secret) =>
      if c !in w.sending then w
      else
        Issued(w, c, Digest(Opaque(m.kind, secret)), w.sending[c].now + m.lifetime)
    case GiveUp(c) => w.(sending := w.sending - {c})
    case Consume(digest, now) =>
      var i := ConsumableAt(w.rows, digest, now);
      if i.None? then w else w.(rows := ConsumedAt(w.rows, i.value, now))
  }

  function Run(m: Mailing, w: World, steps: seq<Step>): World {
    if steps == [] then w
    else Apply(m, Run(m, w, steps[..|steps| - 1]), steps[|steps| - 1])
  }

  /** Only `team` ever sends for `owner`. */
  predicate ServedBy(steps: seq<Step>, owner: UserId, team: set<nat>) {
    forall i :: 0 <= i < |steps| && steps[i].Sweep? && steps[i].owner == owner ==> steps[i].worker in team
  }

  /** The workers between sweeping and issuing for `owner`. */
  function Between(w: World, owner: UserId): set<nat> {
    set c | c in w.sending && w.sending[c].owner == owner
  }

  // ---- The bound -----------------------------------------------------------------------------

  predicate Bounded(w: World, owner: UserId, team: set<nat>) {
    Between(w, owner) <= team && Unconsumed(w.rows, owner) + |Between(w, owner)| <= |team|
  }

  lemma SweepKeepsBound(m: Mailing, w: World, c: nat, swept: UserId, now: int, owner: UserId, team: set<nat>)
    requires Bounded(w, owner, team) && c !in w.sending && (swept == owner ==> c in team)
    ensures Bounded(Apply(m, w, Sweep(c, swept, now)), owner, team)
  {
    var t := Apply(m, w, Sweep(c, swept, now));
    if swept == owner {
      InvalidationLeavesNone(w.rows, owner, now);
      SubsetIsSmaller(Between(t, owner), team);
    } else {
      assert Between(t, owner) == Between(w, owner);
      StampingNeverRaises(w.rows, t.rows, owner);
    }
  }

  lemma IssuedLeaves(w: World, c: nat, digest: SecretDigest, expiresAt: int, owner: UserId)
    requires c in w.sending
    ensures Between(Issued(w, c, digest, expiresAt), owner) == Between(w, owner) - {c}
  {
  }

  lemma IssueKeepsBound(w: World, c: nat, digest: SecretDigest, expiresAt: int, owner: UserId, team: set<nat>)
    requires Bounded(w, owner, team) && c in w.sending
    ensures Bounded(Issued(w, c, digest, expiresAt), owner, team)
  {
    IssuedLeaves(w, c, digest, expiresAt, owner);
    IssueAddsOne(w.rows, w.sending[c].owner, digest, expiresAt, owner);
    OneIssuedOneLeft(w, Issued(w, c, digest, expiresAt), c, owner, team);
  }

  lemma OneIssuedOneLeft(w: World, t: World, c: nat, owner: UserId, team: set<nat>)
    requires Bounded(w, owner, team) && c in w.sending
    requires Between(t, owner) == Between(w, owner) - {c}
    requires Unconsumed(t.rows, owner) == Unconsumed(w.rows, owner) + if w.sending[c].owner == owner then 1 else 0
    ensures Bounded(t, owner, team)
  {
    OneLeaves(Between(w, owner), c);
  }

  lemma OneLeaves(a: set<nat>, c: nat)
    ensures |a - {c}| == |a| - if c in a then 1 else 0
  {
    if c !in a {
      assert a - {c} == a;
    }
  }

  lemma GivingUpKeepsBound(w: World, c: nat, owner: UserId, team: set<nat>)
    requires Bounded(w, owner, team)
    ensures Bounded(w.(sending := w.sending - {c}), owner, team)
  {
    assert Between(w.(sending := w.sending - {c}), owner) == Between(w, owner) - {c};
    OneLeaves(Between(w, owner), c);
  }

  lemma ConsumeKeepsBound(m: Mailing, w: World, digest: SecretDigest, now: int, owner: UserId, team: set<nat>)
    requires Bounded(w, owner, team)
    ensures Bounded(Apply(m, w, Consume(digest, now)), owner, team)
  {
    StampingNeverRaises(w.rows, Apply(m, w, Consume(digest, now)).rows, owner);
  }

  lemma StepKeepsBound(m: Mailing, w: World, step: Step, owner: UserId, team: set<nat>)
    requires Bounded(w, owner, team)
    requires step.Sweep? && step.owner == owner ==> step.worker in team
    ensures Bounded(Apply(m, w, step), owner, team)
  {
    match step
    case Sweep(c, swept, now) =>
      if c !in w.sending {
        SweepKeepsBound(m, w, c, swept, now, owner, team);
      }
    case Issue(c, secret) =>
      if c in w.sending {
        IssueKeepsBound(w, c, Digest(Opaque(m.kind, secret)), w.sending[c].now + m.lifetime, owner, team);
      }
    case GiveUp(c) =>
      GivingUpKeepsBound(w, c, owner, team);
    case Consume(digest, now) =>
      ConsumeKeepsBound(m, w, digest, now, owner, team);
  }

  /**
   * Over every interleaving of sends, resends, failures and consumptions: the unconsumed tokens of an account
   * plus the workers about to issue one never exceed the workers that serve it.
   */
  lemma {:induction false} UnconsumedPlusSendingIsBounded(m: Mailing, steps: seq<Step>, owner: UserId, team: set<nat>)
    requires ServedBy(steps, owner, team)
    ensures Bounded(Run(m, INIT, steps), owner, team)
  {
    if steps == [] {
      assert Between(INIT, owner) == {};
    } else {
      UnconsumedPlusSendingIsBounded(m, steps[..|steps| - 1], owner, team);
      StepKeepsBound(m, Run(m, INIT, steps[..|steps| - 1]), steps[|steps| - 1], owner, team);
    }
  }

  // ---- The bound is reached ------------------------------------------------------------------

  /** The entropy source never repeats itself. */
  predicate FreshSecrets(steps: seq<Step>) {
    forall i, j :: 0 <= i < j < |steps| && steps[i].Issue? && steps[j].Issue? ==> steps[i].secret != steps[j].secret
  }

  /** Each of `issued`, and nobody else, has drawn its own secret, once. */
  predicate DrawnOnce(steps: seq<Step>, secrets: nat -> Bytes32, issued: set<nat>) {
    && (forall i :: 0 <= i < |steps| && steps[i].Issue? ==>
          steps[i].worker in issued && steps[i].secret == secrets(steps[i].worker))
    && (forall i, j :: 0 <= i < j < |steps| && steps[i].Issue? && steps[j].Issue? ==>
          steps[i].worker != steps[j].worker)
  }

  predicate Distinct(secrets: nat -> Bytes32, team: set<nat>) {
    forall c, d :: c in team && d in team && c != d ==> secrets(c) != secrets(d)
  }

  /** `team` stands ready to issue for `owner`, in calls made at `now`, over rows that are still good then. */
  predicate Ready(w: World, owner: UserId, team: set<nat>, now: int) {
    && w.sending.Keys == team && (forall c :: c in team ==> w.sending[c] == Sending(owner, now))
    && forall i :: 0 <= i < |w.rows| ==> w.rows[i].expiresAt > now
  }

  lemma {:induction false} AllSweep(m: Mailing, owner: UserId, team: set<nat>, now: int) returns (steps: seq<Step>)
    ensures ServedBy(steps, owner, team) && forall step :: step in steps ==> step.Sweep?
    ensures Run(m, INIT, steps).rows == [] && Ready(Run(m, INIT, steps), owner, team, now)
    decreases |team|
  {
    steps := [];
    if team != {} {
      var c :| c in team;
      var first := AllSweep(m, owner, team - {c}, now);
      steps := first + [Sweep(c, owner, now)];
      assert steps[..|steps| - 1] == first;
    }
  }

  lemma OneMoreDraws(first: seq<Step>, secrets: nat -> Bytes32, issued: set<nat>, c: nat)
    requires DrawnOnce(first, secrets, issued) && c !in issued
    ensures DrawnOnce(first + [Issue(c, secrets(c))], secrets, issued + {c})
  {
  }

  lemma OneMoreIssues(
      w: World, owner: UserId, team: set<nat>, now: int, c: nat, digest: SecretDigest, expiresAt: int)
    requires Ready(w, owner, team, now) && c in team && expiresAt > now
    ensures var t := Issued(w, c, digest, expiresAt);
      Ready(t, owner, team - {c}, now) && Unconsumed(t.rows, owner) == Unconsumed(w.rows, owner) + 1
  {
    IssueAddsOne(w.rows, owner, digest, expiresAt, owner);
  }

  /** A run of workers out of `all`, of whom `team` has swept and not yet issued, and the others have issued. */
  predicate Issuing(
      m: Mailing, steps: seq<Step>, owner: UserId, team: set<nat>, all: set<nat>, now: int, secrets: nat -> Bytes32) {
    && ServedBy(steps, owner, all) && DrawnOnce(steps, secrets, all - team)
    && Ready(Run(m, INIT, steps), owner, team, now)
  }

  lemma OneMoreWorker(
      m: Mailing, first: seq<Step>, owner: UserId, team: set<nat>, all: set<nat>, now: int,
      secrets: nat -> Bytes32, c: nat)
    returns (steps: seq<Step>)
    requires Issuing(m, first, owner, team, all, now, secrets) && team <= all && c in team
    ensures Issuing(m, steps, owner, team - {c}, all, now, secrets)
    ensures Unconsumed(Run(m, INIT, steps).rows, owner) == Unconsumed(Run(m, INIT, first).rows, owner) + 1
  {
    steps := first + [Issue(c, secrets(c))];
    assert steps[..|steps| - 1] == first;
    OneMoreIssues(Run(m, INIT, first), owner, team, now, c, Digest(Opaque(m.kind, secrets(c))), now + m.lifetime);
    OneMoreDraws(first, secrets, all - team, c);
    assert all - (team - {c}) == all - team + {c};
  }

  lemma {:induction false} AllIssue(
      m: Mailing, first: seq<Step>, owner: UserId, team: set<nat>, all: set<nat>, now: int, secrets: nat -> Bytes32)
    returns (steps: seq<Step>)
    requires Issuing(m, first, owner, team, all, now, secrets) && team <= all
    ensures Issuing(m, steps, owner, {}, all, now, secrets)
    ensures Unconsumed(Run(m, INIT, steps).rows, owner) == Unconsumed(Run(m, INIT, first).rows, owner) + |team|
    decreases |team|
  {
    steps := first;
    if team != {} {
      var c :| c in team;
      var next := OneMoreWorker(m, first, owner, team, all, now, secrets, c);
      steps := AllIssue(m, next, owner, team - {c}, all, now, secrets);
    }
  }

  /**
   * If all of them sweep before any of them issues, every one of them leaves a token that is good; and these are
   * different tokens when the workers draw different secrets.
   */
  lemma EveryWorkerCanLeaveALiveToken(m: Mailing, owner: UserId, team: set<nat>, now: int, secrets: nat -> Bytes32)
    returns (steps: seq<Step>)
    ensures ServedBy(steps, owner, team) && (Distinct(secrets, team) ==> FreshSecrets(steps))
    ensures Unconsumed(Run(m, INIT, steps).rows, owner) == |team|
    ensures var rows := Run(m, INIT, steps).rows; forall i :: 0 <= i < |rows| ==> rows[i].expiresAt > now
  {
    var swept := AllSweep(m, owner, team, now);
    assert forall i :: 0 <= i < |swept| ==> swept[i] in swept;
    assert team - team == {} && team - {} == team;
    steps := AllIssue(m, swept, owner, team, team, now, secrets);
  }

  lemma TwoWorkersLeaveTwoTokens(m: Mailing, owner: UserId, team: set<nat>) returns (steps: seq<Step>)
    requires |team| >= 2
    ensures ServedBy(steps, owner, team) && FreshSecrets(steps)
    ensures Unconsumed(Run(m, INIT, steps).rows, owner) == 2
  {
    var c :| c in team;
    assert |team - {c}| >= 1;
    var d :| d in team - {c};
    var secrets := (x: nat) => if x == c then seq(32, _ => 0) else seq(32, _ => 1);
    assert secrets(c)[0] != secrets(d)[0];
    steps := EveryWorkerCanLeaveALiveToken(m, owner, {c, d}, 0, secrets);
  }

  /**
   * "At most one token per purpose per account" holds of every run with fresh secrets exactly when at most one
   * worker serves the account.
   */
  lemma AtMostOneExactlyWhenSerial(m: Mailing, owner: UserId, team: set<nat>)
    ensures (forall steps :: ServedBy(steps, owner, team) && FreshSecrets(steps) ==>
              Unconsumed(Run(m, INIT, steps).rows, owner) <= 1)
      <==> |team| <= 1
  {
    forall steps | ServedBy(steps, owner, team)
      ensures Unconsumed(Run(m, INIT, steps).rows, owner) <= |team|
    {
      UnconsumedPlusSendingIsBounded(m, steps, owner, team);
    }
    if |team| >= 2 {
      var steps := TwoWorkersLeaveTwoTokens(m, owner, team);
    }
  }

  // ---- Consumed once, whoever presents it ----------------------------------------------------

  /** Step `i` of the run consumes a token. */
  predicate Consumes(m: Mailing, steps: seq<Step>, i: nat)
    requires i < |steps|
  {
    steps[i].Consume? && ConsumableAt(Run(m, INIT, steps[..i]).rows, steps[i].digest, steps[i].now).Some?
  }

  predicate IssuedIn(m: Mailing, steps: seq<Step>, row: MailedToken) {
    exists i :: 0 <= i < |steps| && steps[i].Issue? && row.digest == Digest(Opaque(m.kind, steps[i].secret))
  }

  lemma StepExtendsRows(m: Mailing, w: World, step: Step)
    ensures var rows, after := w.rows, Apply(m, w, step).rows;
      && TokensExtend(rows, after) && |after| <= |rows| + 1
      && (|after| == |rows| + 1 ==>
            step.Issue? && after[|rows|].digest == Digest(Opaque(m.kind, step.secret)))
  {
  }

  lemma {:induction false} RowsAreIssued(m: Mailing, steps: seq<Step>)
    requires FreshSecrets(steps)
    ensures var rows := Run(m, INIT, steps).rows;
      DigestsDiffer(rows) && forall k :: 0 <= k < |rows| ==> IssuedIn(m, steps, rows[k])
  {
    if steps != [] {
      var prefix, step := steps[..|steps| - 1], steps[|steps| - 1];
      RowsAreIssued(m, prefix);
      StepExtendsRows(m, Run(m, INIT, prefix), step);
      var rows, after := Run(m, INIT, prefix).rows, Run(m, INIT, steps).rows;
      forall k | 0 <= k < |after|
        ensures IssuedIn(m, steps, after[k])
        ensures k < |rows| < |after| ==> after[k].digest != after[|rows|].digest
      {
        if k < |rows| {
          assert TokenKept(rows[k], after[k]);
          var i :| 0 <= i < |prefix| && prefix[i].Issue? && rows[k].digest == Digest(Opaque(m.kind, prefix[i].secret));
          assert steps[i] == prefix[i];
        } else {
          assert steps[|steps| - 1] == step;
        }
      }
      forall i, j | 0 <= i < j < |after|
        ensures after[i].digest != after[j].digest
      {
        if j < |rows| {
          assert TokenKept(rows[i], after[i]) && TokenKept(rows[j], after[j]);
        }
      }
    }
  }

  lemma {:induction false} RowsAreKept(m: Mailing, steps: seq<Step>, i: nat)
    requires i <= |steps|
    ensures TokensExtend(Run(m, INIT, steps[..i]).rows, Run(m, INIT, steps).rows)
  {
    if i == |steps| {
      assert steps[..i] == steps;
    } else {
      var prefix := steps[..|steps| - 1];
      RowsAreKept(m, prefix, i);
      assert prefix[..i] == steps[..i];
      StepExtendsRows(m, Run(m, INIT, prefix), steps[|steps| - 1]);
      ExtendingIsTransitive(Run(m, INIT, steps[..i]).rows, Run(m, INIT, prefix).rows, Run(m, INIT, steps).rows);
    }
  }

  /** Of any number of presentations of one token, however they interleave with everything else, one succeeds. */
  lemma EachTokenIsConsumedOnce(m: Mailing, steps: seq<Step>, i: nat, j: nat)
    requires FreshSecrets(steps) && i < j < |steps| && Consumes(m, steps, i) && Consumes(m, steps, j)
    ensures steps[i].digest != steps[j].digest
  {
    var s, t, u := Run(m, INIT, steps[..i]), Run(m, INIT, steps[..i + 1]), Run(m, INIT, steps[..j]);
    assert steps[..i + 1][..i] == steps[..i] && steps[..j][..i + 1] == steps[..i + 1];
    var a := ConsumableAt(s.rows, steps[i].digest, steps[i].now).value;
    assert t.rows[a].digest == steps[i].digest && t.rows[a].consumedAt.Some?;
    RowsAreKept(m, steps[..j], i + 1);
    assert TokenKept(t.rows[a], u.rows[a]);
    RowsAreIssued(m, steps[..j]);
    var b := ConsumableAt(u.rows, steps[j].digest, steps[j].now).value;
    assert b != a;
  }

  // ---- The service takes these steps ---------------------------------------------------------

  /** The steps of one call that found the account, given how many of its store calls succeed. */
  function StepsOf(worker: nat, owner: UserId, now: int, secret: Option<Bytes32>, up: nat): seq<Step> {
    if up <= 1 then []
    else if up == 2 || secret.None? then [Sweep(worker, owner, now), GiveUp(worker)]
    else [Sweep(worker, owner, now), Issue(worker, secret.value)]
  }

  /** A call that runs alone is a run of the protocol, in every failure branch, and leaves nobody sending. */
  lemma SendIsARun(
      m: Mailing, w: World, worker: nat, users: seq<UserRecord>, email: string,
      secret: Option<Bytes32>, mailUp: bool, now: int, up: nat)
    requires worker !in w.sending && UserAt(users, email).Some?
    ensures var id := users[UserAt(users, email).value].id;
      Run(m, w, StepsOf(worker, id, now, secret, up))
        == World(SendIn(users, w.rows, m.kind, email, m.lifetime, secret, mailUp, now, up).0, w.sending)
  {
    var id := users[UserAt(users, email).value].id;
    StepsAre(m, w, worker, id, secret, now, up);
  }

  lemma StepsAre(m: Mailing, w: World, worker: nat, id: UserId, secret: Option<Bytes32>, now: int, up: nat)
    requires worker !in w.sending
    ensures var swept := InvalidatedFor(w.rows, id, now);
      Run(m, w, StepsOf(worker, id, now, secret, up)) == World(
        if up <= 1 then w.rows
        else if up == 2 || secret.None? then swept
        else WithIssued(swept, id, Digest(Opaque(m.kind, secret.value)), now + m.lifetime), w.sending)
  {
    var steps := StepsOf(worker, id, now, secret, up);
    if steps != [] {
      RunOfTwo(m, w, steps[0], steps[1]);
      assert Apply(m, w, steps[0]).sending - {worker} == w.sending;
    }
  }

  lemma RunOfTwo(m: Mailing, w: World, a: Step, b: Step)
    ensures Run(m, w, [a, b]) == Apply(m, Apply(m, w, a), b)
  {
    assert [a, b][..1] == [a] && [a][..0] == [];
    assert Run(m, w, [a]) == Apply(m, w, a);
  }
}

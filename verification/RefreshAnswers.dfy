/** When each answer of a rotation is given, and how long what it hands out lasts, on the stored fields themselves. */
module RefreshAnswers {
  import opened Wrappers
  import opened AuthErrors
  import opened Attempts
  import opened Opaque
  import opened RefreshStore
  import opened RefreshChain
  import opened RefreshRotation
  import opened RefreshProtocol

  // ---- The transition --------------------------------------------------------------------------

  /** Neither spent nor revoked, and before its own expiry. */
  predicate Outstanding(row: TokenRow, now: int) {
    row.consumedAt.None? && row.revokedAt.None? && now < row.expiresAt
  }

  predicate Ongoing(f: Family, now: int) {
    f.revokedAt.None? && now < f.expiresAt
  }

  /** Row `i` carries the digest, and no other row does. */
  predicate IsRowOf(s: Store, i: nat, digest: SecretDigest) {
    && i < |s.rows| && s.rows[i].digest == digest && s.rows[i].family in s.families
    && forall j :: 0 <= j < |s.rows| && j != i ==> s.rows[j].digest != digest
  }

  /** Each answer of the transition, exactly. */
  lemma TransitionIsExactly(s: Store, r: AdvanceRequest, i: nat)
    requires IsRowOf(s, i, r.presented)
    ensures var row, f, t := s.rows[i], s.families[s.rows[i].family], Transition(s, r);
      && (t == Advanced <==> Outstanding(row, r.now) && Ongoing(f, r.now))
      && (t.Replayed? <==> (row.consumedAt.Some? || row.revokedAt.Some?) && Ongoing(f, r.now))
      && (t == FamilyRevoked <==> f.revokedAt.Some?)
      && (t == Unusable <==>
            f.revokedAt.None?
            && (f.expiresAt <= r.now || (row.consumedAt.None? && row.revokedAt.None? && row.expiresAt <= r.now)))
  {
    assert PositionOf(s.rows, r.presented) == Some(i);
  }

  /** A digest no row carries is unusable, and nothing is written. */
  lemma UnknownIsUnusable(s: Store, r: AdvanceRequest)
    requires forall j :: 0 <= j < |s.rows| ==> s.rows[j].digest != r.presented
    ensures Transition(s, r) == Unusable && AfterAdvance(s, r) == s
  {
    assert PositionOf(s.rows, r.presented).None?;
  }

  /** The rows of a family, those of them that are not revoked, and how many there are of each. */
  function RowsOf(rows: seq<TokenRow>, family: FamilyId): set<nat> {
    set i: nat | i < |rows| && rows[i].family == family
  }

  function UnrevokedOf(rows: seq<TokenRow>, family: FamilyId): set<nat> {
    set i: nat | i < |rows| && rows[i].family == family && rows[i].revokedAt.None?
  }

  lemma OneMoreRow(prefix: seq<TokenRow>, row: TokenRow, family: FamilyId)
    ensures RowsOf(prefix + [row], family) == RowsOf(prefix, family) + if row.family == family then {|prefix|} else {}
  {
    var rows := prefix + [row];
    assert forall i: nat :: i < |prefix| ==> rows[i] == prefix[i];
  }

  lemma OneMoreUnrevoked(prefix: seq<TokenRow>, row: TokenRow, family: FamilyId)
    ensures UnrevokedOf(prefix + [row], family)
      == UnrevokedOf(prefix, family) + if row.family == family && row.revokedAt.None? then {|prefix|} else {}
  {
    var rows := prefix + [row];
    assert forall i: nat :: i < |prefix| ==> rows[i] == prefix[i];
  }

  lemma {:induction false} UnrevokedIsTheNumber(rows: seq<TokenRow>, family: FamilyId)
    ensures Unrevoked(rows, family) == |UnrevokedOf(rows, family)|
  {
    if rows != [] {
      UnrevokedIsTheNumber(rows[..|rows| - 1], family);
      OneMoreUnrevoked(rows[..|rows| - 1], rows[|rows| - 1], family);
      assert rows == rows[..|rows| - 1] + [rows[|rows| - 1]];
    }
  }

  lemma {:induction false} ChainLengthIsTheNumber(rows: seq<TokenRow>, family: FamilyId)
    ensures ChainLength(rows, family) == |RowsOf(rows, family)|
  {
    if rows != [] {
      ChainLengthIsTheNumber(rows[..|rows| - 1], family);
      OneMoreRow(rows[..|rows| - 1], rows[|rows| - 1], family);
      assert rows == rows[..|rows| - 1] + [rows[|rows| - 1]];
    }
  }

  /** A revocation stamps the family, and the rows of it that are not yet revoked, at `now`; and nothing else. */
  lemma RevocationIsExactly(s: Store, family: FamilyId, now: int)
    ensures var t := RevokedAll(s, family, now);
      && t.families.Keys == s.families.Keys && |t.rows| == |s.rows|
      && (forall f :: f in s.families ==>
            t.families[f] == if f != family || s.families[f].revokedAt.Some? then s.families[f]
                             else s.families[f].(revokedAt := Some(now)))
      && (forall i :: 0 <= i < |s.rows| ==>
            t.rows[i] == if s.rows[i].family != family || s.rows[i].revokedAt.Some? then s.rows[i]
                         else s.rows[i].(revokedAt := Some(now)))
      && Unrevoked(s.rows, family) == |UnrevokedOf(s.rows, family)|
  {
    UnrevokedIsTheNumber(s.rows, family);
  }

  // ---- The rotation ----------------------------------------------------------------------------

  predicate PortsAnswer(env: Environment) {
    env.readUp && env.tokenId.Some? && env.secret.Some? && env.signingError.None? && env.writeUp
  }

  /** What was presented is the text of a refresh token whose digest row `i` carries. */
  predicate Presents(s: Store, presented: string, i: nat) {
    && i < |s.rows| && s.rows[i].digest.kind == Refresh
    && presented == Wire(Opaque(Refresh, s.rows[i].digest.bytes))
  }

  predicate IsWire(presented: string) {
    |presented| == 64 && forall i :: 0 <= i < 64 ==> '0' <= presented[i] <= '9' || 'a' <= presented[i] <= 'f'
  }

  lemma WireIsParsed(presented: string)
    ensures IsWire(presented) <==> Parsed(Refresh, presented).Some?
  {
  }

  lemma PresentedRow(s: Store, c: RotateCall, i: nat)
    requires ChainInv(s) && Presents(s, c.presented, i)
    ensures Parsed(Refresh, c.presented) == Some(Opaque(Refresh, s.rows[i].digest.bytes))
    ensures IsRowOf(s, i, Digest(Parsed(Refresh, c.presented).value))
    ensures IsWire(c.presented)
  {
    WireRoundTrip(Refresh, c.presented, Opaque(Refresh, s.rows[i].digest.bytes));
    WireIsParsed(c.presented);
    assert RowInv(s, i);
  }

  lemma NothingPresented(s: Store, c: RotateCall)
    requires forall i: nat :: i < |s.rows| ==> !Presents(s, c.presented, i)
    ensures PresentedGrant(s, c).None?
  {
    var token := Parsed(Refresh, c.presented);
    if token.Some? {
      WireRoundTrip(Refresh, c.presented, token.value);
      var p := PositionOf(s.rows, Digest(token.value));
      if p.Some? {
        assert Presents(s, c.presented, p.value);
      }
    }
  }

  /** The answer to a token the store has, when the ports answer. */
  predicate AnswersFor(s: Store, c: RotateCall, i: nat, answer: Result<RefreshOutcome, AuthError>)
    requires i < |s.rows| && s.rows[i].family in s.families
  {
    var row, f := s.rows[i], s.families[s.rows[i].family];
    && (answer.Ok? && answer.value.Rotated? <==> Outstanding(row, c.now) && Ongoing(f, c.now))
    && (answer == Ok(Rejected(AlreadySpent, |RowsOf(s.rows, row.family)|)) <==>
          row.consumedAt.Some? && Ongoing(f, c.now))
    && (answer == Ok(Rejected(FamilyEnded, 0)) <==> f.revokedAt.Some?)
    && (answer == Ok(Rejected(NotOutstanding, 0)) <==>
          f.revokedAt.None? && (f.expiresAt <= c.now || (row.consumedAt.None? && row.expiresAt <= c.now)))
  }

  lemma KnownTokenIsAnswered(s: Store, lifetimes: Lifetimes, c: RotateCall, i: nat)
    requires ChainInv(s) && Presents(s, c.presented, i) && c.admitted == TokenRefresh && PortsAnswer(c.env)
    ensures i < |s.rows| && s.rows[i].family in s.families
    ensures AnswersFor(s, c, i, Rotation(s, lifetimes, c))
  {
    PresentedRow(s, c, i);
    assert PositionOf(s.rows, s.rows[i].digest) == Some(i);
    var r := RequestOf(s, lifetimes, c);
    TransitionIsExactly(s, r, i);
    assert RowInv(s, i);
    ChainLengthIsTheNumber(s.rows, s.rows[i].family);
    if Transition(s, r).Replayed? {
      ReplayRevokesTheChain(s, r, i);
    }
  }

  /**
   * Which answer a rotation gives, exactly. A call admitted for another flow is refused; text that is not 64 lowercase
   * hex characters, or is no stored token's, is not outstanding; and a stored token is answered by the state of its
   * own row and family, once every port has answered.
   */
  lemma RotationIsExactly(s: Store, lifetimes: Lifetimes, c: RotateCall)
    requires ChainInv(s)
    ensures c.admitted != TokenRefresh ==> Rotation(s, lifetimes, c) == Err(PolicyMisconfigured)
    ensures c.admitted == TokenRefresh && !IsWire(c.presented) ==>
      Rotation(s, lifetimes, c) == Ok(Rejected(NotOutstanding, 0))
    ensures c.admitted == TokenRefresh && IsWire(c.presented) && !c.env.readUp ==>
      Rotation(s, lifetimes, c) == Err(NotPermitted)
    ensures c.admitted == TokenRefresh && c.env.readUp
            && (forall i: nat :: i < |s.rows| ==> !Presents(s, c.presented, i)) ==>
      Rotation(s, lifetimes, c) == Ok(Rejected(NotOutstanding, 0))
    ensures c.admitted == TokenRefresh ==>
      forall i: nat :: i < |s.rows| && Presents(s, c.presented, i) ==>
        s.rows[i].family in s.families
        && if PortsAnswer(c.env) then AnswersFor(s, c, i, Rotation(s, lifetimes, c))
           else Rotation(s, lifetimes, c) == Err(FirstFailure(c.env))
  {
    WireIsParsed(c.presented);
    if c.admitted == TokenRefresh {
      if forall i: nat :: i < |s.rows| ==> !Presents(s, c.presented, i) {
        NothingPresented(s, c);
      }
      forall i: nat | i < |s.rows| && Presents(s, c.presented, i)
        ensures s.rows[i].family in s.families
        ensures if PortsAnswer(c.env) then AnswersFor(s, c, i, Rotation(s, lifetimes, c))
                else Rotation(s, lifetimes, c) == Err(FirstFailure(c.env))
      {
        PresentedRow(s, c, i);
        if PortsAnswer(c.env) {
          KnownTokenIsAnswered(s, lifetimes, c, i);
        }
      }
    }
  }

  /** The read, the entropy, the signature and the write are needed in this order. */
  function FirstFailure(env: Environment): AuthError
    requires !PortsAnswer(env)
  {
    if env.readUp && (env.tokenId.None? || env.secret.None?) then EntropyUnavailable
    else if env.readUp && env.signingError.Some? then env.signingError.value
    else NotPermitted
  }

  // ---- Lifetimes -------------------------------------------------------------------------------

  /** Step `i` began the family, with the grant it has now, and it ends its configured lifetime after that. */
  predicate BegunAt(lifetimes: Lifetimes, steps: seq<Step>, i: nat, family: FamilyId, f: Family) {
    && i < |steps| && steps[i].Begin? && steps[i].family == family
    && f.user == steps[i].user && f.scopes == steps[i].scopes && f.expiresAt == steps[i].at + lifetimes.family
  }

  lemma OneMoreStepBegan(lifetimes: Lifetimes, steps: seq<Step>, i: nat, family: FamilyId, f: Family, g: Family)
    requires steps != [] && BegunAt(lifetimes, steps[..|steps| - 1], i, family, f) && FamilyKept(f, g)
    ensures BegunAt(lifetimes, steps, i, family, g)
  {
  }

  /** In every run, every family carries the grant it was begun with, and ends its lifetime after it was begun. */
  lemma {:induction false} FamiliesAreAsBegun(lifetimes: Lifetimes, steps: seq<Step>, family: FamilyId)
    returns (i: nat)
    requires family in After(lifetimes, steps).store.families
    ensures BegunAt(lifetimes, steps, i, family, After(lifetimes, steps).store.families[family])
  {
    var prefix, step := steps[..|steps| - 1], steps[|steps| - 1];
    var w := After(lifetimes, prefix);
    StepExtends(lifetimes, w, step);
    if family in w.store.families {
      i := FamiliesAreAsBegun(lifetimes, prefix, family);
      OneMoreStepBegan(
        lifetimes, steps, i, family, w.store.families[family], After(lifetimes, steps).store.families[family]);
    } else {
      NewFamilyWasBegun(lifetimes, w, step, family);
      i := |steps| - 1;
    }
  }

  lemma NewFamilyWasBegun(lifetimes: Lifetimes, w: World, step: Step, family: FamilyId)
    requires family !in w.store.families && family in Apply(lifetimes, w, step).store.families
    ensures BegunAt(lifetimes, [step], 0, family, Apply(lifetimes, w, step).store.families[family])
  {
  }

  /** The earlier of a token's lifetime after `at` and the end of its family. */
  predicate EndsOnTime(lifetimes: Lifetimes, at: int, expiresAt: int, familyEnd: int) {
    && expiresAt <= at + lifetimes.token && expiresAt <= familyEnd
    && (expiresAt == at + lifetimes.token || expiresAt == familyEnd)
  }

  /** The row's token was given at `at`, by the step that began its family or in a pair handed out. */
  predicate GivenAt(steps: seq<Step>, handouts: seq<Handout>, row: TokenRow, at: int) {
    || (exists i :: 0 <= i < |steps| && steps[i].Begin? && Digest(steps[i].secret) == row.digest && steps[i].at == at)
    || (exists k :: 0 <= k < |handouts| && handouts[k].successor == row.digest && handouts[k].at == at)
  }

  predicate Timely(lifetimes: Lifetimes, steps: seq<Step>, w: World, row: TokenRow, at: int) {
    && row.family in w.store.families
    && GivenAt(steps, w.handouts, row, at)
    && EndsOnTime(lifetimes, at, row.expiresAt, w.store.families[row.family].expiresAt)
  }

  lemma TimelyPersists(
      lifetimes: Lifetimes, steps: seq<Step>, w: World, w': World, row: TokenRow, row': TokenRow, at: int)
    requires steps != [] && Timely(lifetimes, steps[..|steps| - 1], w, row, at)
    requires Extends(w.store, w'.store) && w.handouts <= w'.handouts && RowKept(row, row')
    ensures Timely(lifetimes, steps, w', row', at)
  {
    var prefix := steps[..|steps| - 1];
    if i :| 0 <= i < |prefix| && prefix[i].Begin? && Digest(prefix[i].secret) == row.digest && prefix[i].at == at {
      assert steps[i] == prefix[i];
    } else {
      var k :| 0 <= k < |w.handouts| && w.handouts[k].successor == row.digest && w.handouts[k].at == at;
      assert w'.handouts[k] == w.handouts[k];
    }
  }

  /** In every run, every token stored ends its lifetime after it was given, or with its family if that is earlier. */
  lemma {:induction false} TokensEndOnTime(lifetimes: Lifetimes, steps: seq<Step>, j: nat) returns (at: int)
    requires j < |After(lifetimes, steps).store.rows|
    ensures Timely(lifetimes, steps, After(lifetimes, steps), After(lifetimes, steps).store.rows[j], at)
  {
    var prefix, step := steps[..|steps| - 1], steps[|steps| - 1];
    var w, w' := After(lifetimes, prefix), After(lifetimes, steps);
    StepExtends(lifetimes, w, step);
    if j < |w.store.rows| {
      at := TokensEndOnTime(lifetimes, prefix, j);
      TimelyPersists(lifetimes, steps, w, w', w.store.rows[j], w'.store.rows[j], at);
    } else {
      InvHolds(lifetimes, prefix);
      at := GivingInstant(w, step);
      NewTokenEndsOnTime(lifetimes, w, step, j);
      NewTokenWasGiven(lifetimes, steps, w, j);
    }
  }

  function GivingInstant(w: World, step: Step): int {
    match step
    case Begin(_, _, _, _, _, at) => at
    case Advance(c) => if c in w.clients then w.clients[c].now else 0
    case _ => 0
  }

  lemma NewTokenEndsOnTime(lifetimes: Lifetimes, w: World, step: Step, j: nat)
    requires Inv(w) && |w.store.rows| <= j < |Apply(lifetimes, w, step).store.rows|
    ensures var t := Apply(lifetimes, w, step).store;
      && t.rows[j].family in t.families
      && EndsOnTime(lifetimes, GivingInstant(w, step), t.rows[j].expiresAt, t.families[t.rows[j].family].expiresAt)
  {
    if !step.Begin? {
      assert ClientInv(w, step.client);
      AdvancedTokenEndsOnTime(lifetimes, w.store, w.clients[step.client], j);
    }
  }

  lemma AdvancedTokenEndsOnTime(lifetimes: Lifetimes, s: Store, c: Client, j: nat)
    requires c.phase.Prepared? && GrantFor(s, c.presented) == Some(c.grant)
    requires |s.rows| <= j < |AfterAdvance(s, RequestFor(lifetimes, c)).rows|
    ensures var t := AfterAdvance(s, RequestFor(lifetimes, c));
      && t.rows[j].family in t.families
      && EndsOnTime(lifetimes, c.now, t.rows[j].expiresAt, t.families[t.rows[j].family].expiresAt)
  {
    AdvanceExtends(s, RequestFor(lifetimes, c));
  }

  lemma NewTokenWasGiven(lifetimes: Lifetimes, steps: seq<Step>, w: World, j: nat)
    requires steps != [] && w == After(lifetimes, steps[..|steps| - 1])
    requires |w.store.rows| <= j < |After(lifetimes, steps).store.rows|
    ensures var w' := After(lifetimes, steps);
      GivenAt(steps, w'.handouts, w'.store.rows[j], GivingInstant(w, steps[|steps| - 1]))
  {
    var step, w' := steps[|steps| - 1], After(lifetimes, steps);
    if step.Begin? {
      assert Digest(step.secret) == w'.store.rows[j].digest;
    } else {
      AdvanceExtends(w.store, RequestFor(lifetimes, w.clients[step.client]));
      assert w'.handouts[|w.handouts|].successor == w'.store.rows[j].digest;
    }
  }
}

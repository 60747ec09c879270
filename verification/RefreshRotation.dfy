/** Issuing and rotating refresh tokens against a store. */
module RefreshRotation {
  import opened Wrappers
  import opened Bytes
  import opened Instants
  import opened AuthErrors
  import opened Attempts
  import opened Opaque
  import opened RefreshStore
  import opened RefreshChain

  /** Thirty days. */
  const MAX_REFRESH_LIFETIME := 30 * DAY

  datatype RawLifetimes = Lifetimes(token: int, family: int)

  type Lifetimes = l: RawLifetimes
    | 0 < l.token <= MAX_REFRESH_LIFETIME && 0 < l.family <= MAX_REFRESH_LIFETIME
    witness Lifetimes(1, 1)

  /** What an access token says: whose it is and what it allows. */
  datatype AccessToken = AccessToken(user: UserId, scopes: set<string>)

  datatype RotatedTokens = RotatedTokens(access: AccessToken, refresh: Opaque, family: FamilyId)

  datatype RefreshRejection = NotOutstanding | AlreadySpent | FamilyEnded

  datatype RefreshOutcome = Rotated(tokens: RotatedTokens) | Rejected(reason: RefreshRejection, revoked: nat)

  /**
   * What the ports give one call: identifiers and a secret from the entropy source, a signing error if
   * there is one, and whether the store's read and write succeed.
   */
  datatype Environment = Environment(
    familyId: Option<FamilyId>,
    tokenId: Option<TokenId>,
    secret: Option<Bytes32>,
    signingError: Option<AuthError>,
    readUp: bool,
    writeUp: bool)

  /** The token lifetime or the end of the family, whichever comes first. */
  function TokenExpiry(now: int, lifetimes: Lifetimes, familyExpiresAt: int): int {
    if now + lifetimes.token < familyExpiresAt then now + lifetimes.token else familyExpiresAt
  }

  // ---- Rotation as a function of the store ---------------------------------------------------

  datatype RotateCall = RotateCall(admitted: AttemptFlow, presented: string, now: int, env: Environment)

  /** The first thing that stops a call before it reaches the store's transition, if anything does. */
  function Stopped(s: Store, c: RotateCall): Option<Result<RefreshOutcome, AuthError>> {
    var token := Parsed(Refresh, c.presented);
    if c.admitted != TokenRefresh then Some(Err(PolicyMisconfigured))
    else if token.None? then Some(Ok(Rejected(NotOutstanding, 0)))
    else if !c.env.readUp then Some(Err(NotPermitted))
    else if GrantFor(s, Digest(token.value)).None? then Some(Ok(Rejected(NotOutstanding, 0)))
    else if c.env.tokenId.None? || c.env.secret.None? then Some(Err(EntropyUnavailable))
    else if c.env.signingError.Some? then Some(Err(c.env.signingError.value))
    else if !c.env.writeUp then Some(Err(NotPermitted))
    else None
  }

  function RequestOf(s: Store, lifetimes: Lifetimes, c: RotateCall): AdvanceRequest
    requires Stopped(s, c).None?
  {
    var presented := Digest(Parsed(Refresh, c.presented).value);
    AdvanceRequest(
      presented, c.env.tokenId.value, Digest(Opaque(Refresh, c.env.secret.value)),
      TokenExpiry(c.now, lifetimes, GrantFor(s, presented).value.familyExpiresAt), c.now)
  }

  function Rotation(s: Store, lifetimes: Lifetimes, c: RotateCall): Result<RefreshOutcome, AuthError> {
    var stopped := Stopped(s, c);
    if stopped.Some? then stopped.value
    else
      var r := RequestOf(s, lifetimes, c);
      var grant := GrantFor(s, r.presented).value;
      Ok(match Transition(s, r)
         case Advanced =>
           Rotated(RotatedTokens(
             AccessToken(grant.user, grant.scopes), Opaque(Refresh, c.env.secret.value), grant.family))
         case Replayed(revoked) => Rejected(AlreadySpent, revoked)
         case FamilyRevoked => Rejected(FamilyEnded, 0)
         case Unusable => Rejected(NotOutstanding, 0))
  }

  function AfterRotation(s: Store, lifetimes: Lifetimes, c: RotateCall): Store {
    if Stopped(s, c).Some? then s else AfterAdvance(s, RequestOf(s, lifetimes, c))
  }

  /** The grant behind the token a call presents. */
  function PresentedGrant(s: Store, c: RotateCall): Option<RefreshGrant> {
    var token := Parsed(Refresh, c.presented);
    if token.None? then None else GrantFor(s, Digest(token.value))
  }

  /**
   * All or nothing: whatever fails, the store is as it was and no token is handed out; or the presented token's
   * family, and no other, is tombstoned and the answer says so; or the token handed out is that family's one live
   * row, unexpired, and the access token beside it carries the family's own user and scopes.
   */
  lemma RotateIsAllOrNothing(s: Store, lifetimes: Lifetimes, c: RotateCall)
    requires ChainInv(s)
    requires c.env.secret.Some? ==>
      forall i :: 0 <= i < |s.rows| ==> s.rows[i].digest != Digest(Opaque(Refresh, c.env.secret.value))
    ensures var t, answer := AfterRotation(s, lifetimes, c), Rotation(s, lifetimes, c);
      && ChainInv(t)
      && match answer
         case Ok(Rotated(tokens)) =>
           PresentedGrant(s, c).Some? && HandsOutTheLiveRow(s, t, tokens, PresentedGrant(s, c).value, c.now)
         case Ok(Rejected(AlreadySpent, revoked)) =>
           PresentedGrant(s, c).Some? && ReplayEnds(s, t, PresentedGrant(s, c).value.family, revoked, c.now)
         case _ => t == s
  {
    if Stopped(s, c).None? {
      var r := RequestOf(s, lifetimes, c);
      AdvanceKeepsChain(s, r);
      var p := PositionOf(s.rows, r.presented).value;
      assert RowInv(s, p);
      match Transition(s, r)
      case Advanced => AdvanceLeavesOneLiveSuccessor(s, r);
      case Replayed(_) =>
        forall j: nat | j < |s.rows| && s.rows[j].family == s.rows[p].family
          ensures s.rows[j].revokedAt.None?
        {
          assert RowInv(s, j);
        }
        NothingRevokedYet(s.rows, s.rows[p].family);
      case _ =>
    }
  }

  predicate HandsOutTheLiveRow(s: Store, t: Store, tokens: RotatedTokens, grant: RefreshGrant, now: int) {
    var n := |s.rows|;
    && |t.rows| == n + 1 && IsSoleLiveRow(t.rows, n)
    && t.rows[n].digest == Digest(tokens.refresh) && t.rows[n].family == tokens.family == grant.family
    && now < t.rows[n].expiresAt <= grant.familyExpiresAt
    && t.families == s.families
    && tokens.access == AccessToken(grant.user, grant.scopes)
  }

  predicate ReplayEnds(s: Store, t: Store, family: FamilyId, revoked: nat, now: int) {
    && family in s.families && s.families[family].revokedAt.None?
    && revoked == ChainLength(s.rows, family)
    && t == RevokedAll(s, family, now)
  }

  // ---- The service ---------------------------------------------------------------------------

  class RefreshService {
    const repository: RefreshRows
    const lifetimes: Lifetimes

    constructor (repository: RefreshRows, lifetimes: Lifetimes)
      ensures this.repository == repository && this.lifetimes == lifetimes
    {
      this.repository, this.lifetimes := repository, lifetimes;
    }

    /** Starts a family for a subject that has just authenticated. Nothing is written unless everything is ready. */
    method Begin(user: UserId, scopes: set<string>, now: int, env: Environment)
      returns (r: Result<RotatedTokens, AuthError>)
      modifies repository
      ensures r.Ok? <==>
        env.familyId.Some? && env.tokenId.Some? && env.secret.Some? && env.signingError.None? && env.writeUp
      ensures r.Err? ==> repository.Contents() == old(repository.Contents())
      ensures r.Err? && (env.familyId.None? || env.tokenId.None? || env.secret.None?) ==> r.error == EntropyUnavailable
      ensures r.Err? && env.familyId.Some? && env.tokenId.Some? && env.secret.Some? ==>
        r.error == if env.signingError.Some? then env.signingError.value else NotPermitted
      ensures r.Ok? ==>
        && r.value == RotatedTokens(AccessToken(user, scopes), Opaque(Refresh, env.secret.value), env.familyId.value)
        && repository.Contents() == Begun(old(repository.Contents()),
             NewFamily(user, scopes, now, env.familyId.value, env.tokenId.value, r.value.refresh, lifetimes))
    {
      if env.familyId.None? || env.tokenId.None? || env.secret.None? {
        return Err(EntropyUnavailable);
      }
      var refresh := Opaque(Refresh, env.secret.value);
      if env.signingError.Some? {
        return Err(env.signingError.value);
      }
      var familyExpiresAt := now + lifetimes.family;
      if !env.writeUp {
        return Err(NotPermitted);
      }
      repository.BeginFamily(NewRefreshFamily(
        env.familyId.value, user, scopes, env.tokenId.value, Digest(refresh),
        familyExpiresAt, TokenExpiry(now, lifetimes, familyExpiresAt)));
      return Ok(RotatedTokens(AccessToken(user, scopes), refresh, env.familyId.value));
    }

    /** Spends `presented` and issues the next pair, or refuses it. */
    method Rotate(admitted: AttemptFlow, presented: string, now: int, env: Environment)
      returns (r: Result<RefreshOutcome, AuthError>)
      modifies repository
      ensures r == Rotation(old(repository.Contents()), lifetimes, RotateCall(admitted, presented, now, env))
      ensures repository.Contents()
        == AfterRotation(old(repository.Contents()), lifetimes, RotateCall(admitted, presented, now, env))
    {
      if admitted != TokenRefresh {
        return Err(PolicyMisconfigured);
      }
      var token := FromWire(Refresh, presented);
      if token.None? {
        return Ok(Rejected(NotOutstanding, 0));
      }
      var presentedDigest := Digest(token.value);
      if !env.readUp {
        return Err(NotPermitted);
      }
      var grant := repository.FindGrant(presentedDigest);
      if grant.None? {
        return Ok(Rejected(NotOutstanding, 0));
      }
      if env.tokenId.None? || env.secret.None? {
        return Err(EntropyUnavailable);
      }
      var successor := Opaque(Refresh, env.secret.value);
      if env.signingError.Some? {
        return Err(env.signingError.value);
      }
      var access := AccessToken(grant.value.user, grant.value.scopes);
      if !env.writeUp {
        return Err(NotPermitted);
      }
      var transition := repository.Advance(AdvanceRequest(
        presentedDigest, env.tokenId.value, Digest(successor),
        TokenExpiry(now, lifetimes, grant.value.familyExpiresAt), now));
      match transition
      case Advanced => return Ok(Rotated(RotatedTokens(access, successor, grant.value.family)));
      case Replayed(revoked) => return Ok(Rejected(AlreadySpent, revoked));
      case FamilyRevoked => return Ok(Rejected(FamilyEnded, 0));
      case Unusable => return Ok(Rejected(NotOutstanding, 0));
    }

    /** Ends a chain deliberately. */
    method Revoke(family: FamilyId, now: int, writeUp: bool) returns (r: Result<nat, AuthError>)
      modifies repository
      ensures !writeUp ==> r == Err(NotPermitted) && repository.Contents() == old(repository.Contents())
      ensures writeUp ==>
        && r == Ok(Unrevoked(old(repository.Contents()).rows, family))
        && repository.Contents() == RevokedAll(old(repository.Contents()), family, now)
    {
      if !writeUp {
        return Err(NotPermitted);
      }
      var revoked := repository.RevokeFamily(family, now);
      return Ok(revoked);
    }
  }

  function NewFamily(
      user: UserId, scopes: set<string>, now: int,
      family: FamilyId, tokenId: TokenId, refresh: Opaque, lifetimes: Lifetimes): NewRefreshFamily {
    var end := now + lifetimes.family;
    NewRefreshFamily(family, user, scopes, tokenId, Digest(refresh), end, TokenExpiry(now, lifetimes, end))
  }

  /** A new family holds exactly one token, live, unexpired, and never past the family's end. */
  lemma BeginLeavesOneLiveToken(s: Store, lifetimes: Lifetimes, user: UserId, scopes: set<string>, now: int,
                                family: FamilyId, tokenId: TokenId, refresh: Opaque)
    requires ChainInv(s) && family !in s.families
    requires forall i :: 0 <= i < |s.rows| ==> s.rows[i].digest != Digest(refresh)
    ensures var t := Begun(s, NewFamily(user, scopes, now, family, tokenId, refresh, lifetimes));
      && ChainInv(t) && IsSoleLiveRow(t.rows, |s.rows|)
      && t.rows[|s.rows|].digest == Digest(refresh) && t.rows[|s.rows|].family == family
      && now < t.rows[|s.rows|].expiresAt <= t.families[family].expiresAt
  {
    var t := Begun(s, NewFamily(user, scopes, now, family, tokenId, refresh, lifetimes));
    BeginKeepsChain(s, NewFamily(user, scopes, now, family, tokenId, refresh, lifetimes));
    forall i: nat | i < |s.rows|
      ensures t.rows[i].family != family
    {
      assert RowInv(s, i);
    }
  }
}

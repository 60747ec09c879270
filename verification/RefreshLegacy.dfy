/**
 * The rotation this store replaced: consume, then revoke or insert, as three separate statements. Each is
 * right on its own; the race below shows the composition is not, and that one atomic step is.
 */
module RefreshLegacy {
  import opened Wrappers
  import opened Opaque
  import opened RefreshStore
  import opened RefreshChain
  import opened RefreshProtocol

  datatype Consumption = Consumed | AlreadyConsumed | NotUsable

  function ConsumptionOf(s: Store, digest: SecretDigest, now: int): Consumption {
    var p := PositionOf(s.rows, digest);
    if p.None? then NotUsable
    else if s.rows[p.value].consumedAt.Some? || s.rows[p.value].revokedAt.Some? then AlreadyConsumed
    else if s.rows[p.value].expiresAt <= now then NotUsable
    else Consumed
  }

  function AfterConsume(s: Store, digest: SecretDigest, now: int): Store {
    if ConsumptionOf(s, digest, now) != Consumed then s
    else
      var p := PositionOf(s.rows, digest).value;
      s.(rows := s.rows[p := s.rows[p].(consumedAt := Some(now))])
  }

  function AfterIssue(s: Store, family: FamilyId, id: TokenId, digest: SecretDigest, expiresAt: int): Store {
    s.(rows := s.rows + [FreshRow(id, family, digest, expiresAt)])
  }

  /** A live token, two presenters of it, and a successor nobody has seen before. */
  predicate Race(s: Store, i: nat, successor: SecretDigest, now: int) {
    && ChainInv(s) && i < |s.rows| && Live(s.rows[i]) && now < s.rows[i].expiresAt
    && !Holds(s.rows, successor)
  }

  /**
   * From any store with a live token: one presenter consumes it, another detects the replay and revokes the
   * family, and the first then inserts its successor. The revoked family has a live token again.
   */
  lemma ThreeStatementsLoseTheRace(s: Store, i: nat, id: TokenId, successor: SecretDigest, expiresAt: int, now: int)
    requires Race(s, i, successor, now)
    ensures var presented, family := s.rows[i].digest, s.rows[i].family;
      var consumed := AfterConsume(s, presented, now);
      var revoked := RevokedAll(consumed, family, now);
      var reissued := AfterIssue(revoked, family, id, successor, expiresAt);
      && ConsumptionOf(s, presented, now) == Consumed
      && ConsumptionOf(consumed, presented, now) == AlreadyConsumed
      && Ended(reissued, family)
      && Live(reissued.rows[|s.rows|]) && reissued.rows[|s.rows|].family == family
      && !ChainInv(reissued)
  {
    assert RowInv(s, i);
    var p := PositionOf(s.rows, s.rows[i].digest).value;
    assert p == i;
    var consumed := AfterConsume(s, s.rows[i].digest, now);
    assert consumed.rows[i].digest == s.rows[i].digest;
    assert PositionOf(consumed.rows, s.rows[i].digest) == Some(i);
    var reissued := AfterIssue(RevokedAll(consumed, s.rows[i].family, now), s.rows[i].family, id, successor, expiresAt);
    assert !RowInv(reissued, |s.rows|);
  }

  /** The first presenter wins: the chain is one longer, and the presented row is spent. */
  lemma FirstAdvances(s: Store, i: nat, a: AdvanceRequest)
    requires Race(s, i, a.successor, a.now) && a.presented == s.rows[i].digest
    requires s.rows[i].family in s.families && a.now < s.families[s.rows[i].family].expiresAt
    requires a.successorExpiresAt <= s.families[s.rows[i].family].expiresAt
    ensures var t := AfterAdvance(s, a);
      && Transition(s, a) == Advanced && ChainInv(t) && t.families == s.families
      && i < |t.rows| && t.rows[i].consumedAt.Some?
      && t.rows[i].digest == s.rows[i].digest && t.rows[i].family == s.rows[i].family
      && ChainLength(t.rows, s.rows[i].family) == ChainLength(s.rows, s.rows[i].family) + 1
  {
    assert RowInv(s, i);
    assert PositionOf(s.rows, a.presented).value == i;
    AdvanceKeepsChain(s, a);
    var t := AfterAdvance(s, a);
    assert t.rows[..|t.rows| - 1] == s.rows[i := t.rows[i]];
    LengthIgnoresStamps(s.rows, s.rows[i := t.rows[i]], s.rows[i].family);
  }

  /** The second one finds a spent row: the whole chain is revoked. */
  lemma SecondReplays(t: Store, i: nat, b: AdvanceRequest)
    requires ChainInv(t) && i < |t.rows| && t.rows[i].consumedAt.Some? && b.presented == t.rows[i].digest
    requires t.rows[i].family in t.families
    requires var f := t.families[t.rows[i].family]; f.revokedAt.None? && b.now < f.expiresAt
    ensures var u, family := AfterAdvance(t, b), t.rows[i].family;
      && Transition(t, b) == Replayed(ChainLength(t.rows, family)) && Ended(u, family)
      && forall j :: 0 <= j < |u.rows| && u.rows[j].family == family ==> !Live(u.rows[j])
  {
    assert PositionOf(t.rows, b.presented).value == i;
    ReplayRevokesTheChain(t, b, i);
    RevokeKeepsChain(t, t.rows[i].family, b.now);
    FamilyIsAChain(AfterAdvance(t, b), t.rows[i].family);
  }

  /** The same race through `advance`: whoever comes second ends the family, and no live token survives. */
  lemma AtomicAdvanceWinsTheRace(s: Store, i: nat, a: AdvanceRequest, b: AdvanceRequest)
    requires Race(s, i, a.successor, a.now) && a.presented == b.presented == s.rows[i].digest
    requires s.rows[i].family in s.families
    requires a.now < s.families[s.rows[i].family].expiresAt && b.now < s.families[s.rows[i].family].expiresAt
    requires a.successorExpiresAt <= s.families[s.rows[i].family].expiresAt
    ensures var t := AfterAdvance(s, a);
      var u := AfterAdvance(t, b);
      && Transition(s, a) == Advanced
      && Transition(t, b) == Replayed(ChainLength(s.rows, s.rows[i].family) + 1)
      && Ended(u, s.rows[i].family)
      && forall j :: 0 <= j < |u.rows| && u.rows[j].family == s.rows[i].family ==> !Live(u.rows[j])
  {
    assert RowInv(s, i);
    FirstAdvances(s, i, a);
    SecondReplays(AfterAdvance(s, a), i, b);
  }

  lemma {:induction false} LengthIgnoresStamps(rows: seq<TokenRow>, others: seq<TokenRow>, family: FamilyId)
    requires |rows| == |others| && forall i :: 0 <= i < |rows| ==> rows[i].family == others[i].family
    ensures ChainLength(rows, family) == ChainLength(others, family)
  {
    if rows != [] {
      LengthIgnoresStamps(rows[..|rows| - 1], others[..|rows| - 1], family);
    }
  }
}

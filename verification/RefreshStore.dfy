/** The refresh-token store: one row per family, one row per token, and the transition that rotates them. */
module RefreshStore {
  import opened Wrappers
  import opened Opaque

  type FamilyId = nat

  type TokenId = nat

  type UserId = nat

  /** One login: the immutable grant, and the monotonic tombstone. */
  datatype Family = Family(user: UserId, scopes: set<string>, expiresAt: int, revokedAt: Option<int>)

  /** One token of a chain. */
  datatype TokenRow = TokenRow(
    id: TokenId,
    family: FamilyId,
    digest: SecretDigest,
    expiresAt: int,
    consumedAt: Option<int>,
    replacedBy: Option<TokenId>,
    revokedAt: Option<int>)

  datatype Store = Store(families: map<FamilyId, Family>, rows: seq<TokenRow>)

  datatype NewRefreshFamily = NewRefreshFamily(
    family: FamilyId,
    user: UserId,
    scopes: set<string>,
    firstTokenId: TokenId,
    firstToken: SecretDigest,
    familyExpiresAt: int,
    tokenExpiresAt: int)

  datatype RefreshGrant = RefreshGrant(family: FamilyId, user: UserId, scopes: set<string>, familyExpiresAt: int)

  datatype AdvanceRequest = AdvanceRequest(
    presented: SecretDigest,
    successorId: TokenId,
    successor: SecretDigest,
    successorExpiresAt: int,
    now: int)

  datatype RefreshTransition = Advanced | Replayed(revoked: nat) | FamilyRevoked | Unusable

  // ---- The transitions on the store's value --------------------------------------------------

  /** Where the first row with this digest is. */
  function PositionOf(rows: seq<TokenRow>, digest: SecretDigest): (p: Option<nat>)
    ensures p.Some? ==> p.value < |rows| && rows[p.value].digest == digest
    ensures p.Some? ==> forall j :: 0 <= j < p.value ==> rows[j].digest != digest
    ensures p.None? ==> forall j :: 0 <= j < |rows| ==> rows[j].digest != digest
  {
    if rows == [] then None
    else
      var p := PositionOf(rows[..|rows| - 1], digest);
      if p.Some? then p
      else if rows[|rows| - 1].digest == digest then Some(|rows| - 1)
      else None
  }

  function FreshRow(id: TokenId, family: FamilyId, digest: SecretDigest, expiresAt: int): TokenRow {
    TokenRow(id, family, digest, expiresAt, None, None, None)
  }

  function Begun(s: Store, n: NewRefreshFamily): Store {
    Store(
      s.families[n.family := Family(n.user, n.scopes, n.familyExpiresAt, None)],
      s.rows + [FreshRow(n.firstTokenId, n.family, n.firstToken, n.tokenExpiresAt)])
  }

  function GrantFor(s: Store, digest: SecretDigest): Option<RefreshGrant> {
    var p := PositionOf(s.rows, digest);
    if p.None? || s.rows[p.value].family !in s.families then None
    else
      var id := s.rows[p.value].family;
      var f := s.families[id];
      Some(RefreshGrant(id, f.user, f.scopes, f.expiresAt))
  }

  function Stamped(row: TokenRow, family: FamilyId, now: int): TokenRow {
    if row.family == family && row.revokedAt.None? then row.(revokedAt := Some(now)) else row
  }

  /** Every token of the family that is not yet revoked, revoked at `now`. */
  function Swept(rows: seq<TokenRow>, family: FamilyId, now: int): seq<TokenRow> {
    seq(|rows|, i requires 0 <= i < |rows| => Stamped(rows[i], family, now))
  }

  /** The tombstone is monotonic: one already set keeps its instant. */
  function Tombstoned(families: map<FamilyId, Family>, family: FamilyId, now: int): map<FamilyId, Family> {
    if family in families && families[family].revokedAt.None? then
      families[family := families[family].(revokedAt := Some(now))]
    else families
  }

  function Unrevoked(rows: seq<TokenRow>, family: FamilyId): nat {
    if rows == [] then 0
    else
      var last := rows[|rows| - 1];
      Unrevoked(rows[..|rows| - 1], family) + if last.family == family && last.revokedAt.None? then 1 else 0
  }

  function RevokedAll(s: Store, family: FamilyId, now: int): Store {
    Store(Tombstoned(s.families, family, now), Swept(s.rows, family, now))
  }

  /** What `advance` decides. */
  function Transition(s: Store, r: AdvanceRequest): RefreshTransition {
    var p := PositionOf(s.rows, r.presented);
    if p.None? || s.rows[p.value].family !in s.families then Unusable
    else
      var row := s.rows[p.value];
      var f := s.families[row.family];
      if f.revokedAt.Some? then FamilyRevoked
      else if f.expiresAt <= r.now then Unusable
      else if row.consumedAt.Some? || row.revokedAt.Some? then Replayed(Unrevoked(s.rows, row.family))
      else if row.expiresAt <= r.now then Unusable
      else Advanced
  }

  /**
   * Row `i` is the first with the presented digest; it is neither spent nor revoked nor expired, and its family is
   * neither tombstoned nor over.
   */
  predicate MayAdvance(s: Store, r: AdvanceRequest, i: nat) {
    && i < |s.rows| && s.rows[i].digest == r.presented && (forall j :: 0 <= j < i ==> s.rows[j].digest != r.presented)
    && s.rows[i].consumedAt.None? && s.rows[i].revokedAt.None? && r.now < s.rows[i].expiresAt
    && s.rows[i].family in s.families
    && var f := s.families[s.rows[i].family]; f.revokedAt.None? && r.now < f.expiresAt
  }

  lemma AdvancesExactly(s: Store, r: AdvanceRequest)
    ensures Transition(s, r) == Advanced <==> exists i: nat :: MayAdvance(s, r, i)
  {
    var p := PositionOf(s.rows, r.presented);
    if Transition(s, r) == Advanced {
      assert MayAdvance(s, r, p.value);
    }
    if i: nat :| MayAdvance(s, r, i) {
      assert p == Some(i);
    }
  }

  /** What `advance` writes. */
  function AfterAdvance(s: Store, r: AdvanceRequest): Store {
    match Transition(s, r)
    case Advanced =>
      var i := PositionOf(s.rows, r.presented).value;
      var row := s.rows[i];
      s.(rows := s.rows[i := row.(consumedAt := Some(r.now), replacedBy := Some(r.successorId))]
               + [FreshRow(r.successorId, row.family, r.successor, r.successorExpiresAt)])
    case Replayed(_) => RevokedAll(s, s.rows[PositionOf(s.rows, r.presented).value].family, r.now)
    case _ => s
  }

  // ---- The store in memory -------------------------------------------------------------------

  class RefreshRows {
    var families: map<FamilyId, Family>
    var rows: seq<TokenRow>

    ghost function Contents(): Store
      reads this
    {
      Store(families, rows)
    }

    constructor ()
      ensures Contents() == Store(map[], [])
    {
      families, rows := map[], [];
    }

    method BeginFamily(n: NewRefreshFamily)
      modifies this
      ensures Contents() == Begun(old(Contents()), n)
    {
      families := families[n.family := Family(n.user, n.scopes, n.familyExpiresAt, None)];
      rows := rows + [TokenRow(n.firstTokenId, n.family, n.firstToken, n.tokenExpiresAt, None, None, None)];
    }

    method Position(digest: SecretDigest) returns (p: Option<nat>)
      ensures p == PositionOf(rows, digest)
    {
      for i := 0 to |rows|
        invariant forall j :: 0 <= j < i ==> rows[j].digest != digest
      {
        if rows[i].digest == digest {
          return Some(i);
        }
      }
      return None;
    }

    method FindGrant(digest: SecretDigest) returns (g: Option<RefreshGrant>)
      ensures g == GrantFor(Contents(), digest)
    {
      var p := Position(digest);
      if p.None? || rows[p.value].family !in families {
        return None;
      }
      var id := rows[p.value].family;
      return Some(RefreshGrant(id, families[id].user, families[id].scopes, families[id].expiresAt));
    }

    /** Sets the tombstone if it is not set, and revokes every token still unrevoked. */
    method RevokeFamily(family: FamilyId, now: int) returns (revoked: nat)
      modifies this
      ensures Contents() == RevokedAll(old(Contents()), family, now)
      ensures revoked == Unrevoked(old(rows), family)
    {
      if family in families && families[family].revokedAt.None? {
        families := families[family := families[family].(revokedAt := Some(now))];
      }
      ghost var before := rows;
      revoked := 0;
      for i := 0 to |rows|
        invariant |rows| == |before| && families == Tombstoned(old(families), family, now)
        invariant forall j :: 0 <= j < i ==> rows[j] == Stamped(before[j], family, now)
        invariant forall j :: i <= j < |rows| ==> rows[j] == before[j]
        invariant revoked == Unrevoked(before[..i], family)
      {
        assert before[..i + 1][..i] == before[..i];
        if rows[i].family == family && rows[i].revokedAt.None? {
          rows := rows[i := rows[i].(revokedAt := Some(now))];
          revoked := revoked + 1;
        }
      }
      assert before[..|before|] == before;
      assert rows == Swept(before, family, now);
    }

    /** The one atomic transition: revalidate, then consume and insert, or answer a replay by revocation. */
    method Advance(r: AdvanceRequest) returns (t: RefreshTransition)
      modifies this
      ensures t == Transition(old(Contents()), r)
      ensures Contents() == AfterAdvance(old(Contents()), r)
      ensures t == Advanced <==> exists i: nat :: MayAdvance(old(Contents()), r, i)
    {
      AdvancesExactly(Contents(), r);
      var p := Position(r.presented);
      if p.None? {
        return Unusable;
      }
      var i := p.value;
      var family := rows[i].family;
      if family !in families {
        return Unusable;
      }
      if families[family].revokedAt.Some? {
        return FamilyRevoked;
      }
      if families[family].expiresAt <= r.now {
        return Unusable;
      }
      if rows[i].consumedAt.Some? || rows[i].revokedAt.Some? {
        var revoked := RevokeFamily(family, r.now);
        return Replayed(revoked);
      }
      if rows[i].expiresAt <= r.now {
        return Unusable;
      }
      rows := rows[i := rows[i].(consumedAt := Some(r.now), replacedBy := Some(r.successorId))];
      rows := rows + [TokenRow(r.successorId, family, r.successor, r.successorExpiresAt, None, None, None)];
      return Advanced;
    }
  }
}

/** Every family is one linear chain of tokens, and every step of the store keeps it so. */
module RefreshChain {
  import opened Wrappers
  import opened RefreshStore

  predicate Live(row: TokenRow) {
    row.consumedAt.None? && row.revokedAt.None?
  }

  predicate Newest(rows: seq<TokenRow>, i: nat)
    requires i < |rows|
  {
    forall j :: i < j < |rows| ==> rows[j].family != rows[i].family
  }

  /** Row `j` is the next row of row `i`'s family, and row `i` says it was replaced by it. */
  predicate ReplacedBy(rows: seq<TokenRow>, i: nat, j: nat)
    requires i < |rows|
  {
    && i < j < |rows| && rows[j].family == rows[i].family && rows[i].replacedBy == Some(rows[j].id)
    && forall k :: i < k < j ==> rows[k].family != rows[i].family
  }

  predicate HasSuccessor(rows: seq<TokenRow>, i: nat)
    requires i < |rows|
  {
    exists j: nat :: j < |rows| && ReplacedBy(rows, i, j)
  }

  predicate HasRow(rows: seq<TokenRow>, family: FamilyId) {
    exists i :: 0 <= i < |rows| && rows[i].family == family
  }

  predicate DigestsDiffer(rows: seq<TokenRow>) {
    forall i, j :: 0 <= i < j < |rows| ==> rows[i].digest != rows[j].digest
  }

  /** What holds of one row: its family, its place in the chain, its expiry. */
  predicate RowInv(s: Store, i: nat)
    requires i < |s.rows|
  {
    var row := s.rows[i];
    && row.family in s.families
    && (row.consumedAt.None? <==> Newest(s.rows, i))
    && (row.consumedAt.Some? ==> HasSuccessor(s.rows, i))
    && (row.revokedAt.Some? <==> s.families[row.family].revokedAt.Some?)
    && row.expiresAt <= s.families[row.family].expiresAt
  }

  predicate ChainInv(s: Store) {
    && (forall i: nat :: i < |s.rows| ==> RowInv(s, i))
    && (forall f :: f in s.families ==> HasRow(s.rows, f))
    && DigestsDiffer(s.rows)
  }

  // ---- What the invariant says of a family ---------------------------------------------------

  lemma {:induction false} SomeRowIsNewest(rows: seq<TokenRow>, family: FamilyId) returns (i: nat)
    requires HasRow(rows, family)
    ensures i < |rows| && rows[i].family == family && Newest(rows, i)
  {
    var prefix, last := rows[..|rows| - 1], rows[|rows| - 1];
    if last.family == family {
      i := |rows| - 1;
    } else {
      var j :| 0 <= j < |rows| && rows[j].family == family;
      assert prefix[j].family == family;
      i := SomeRowIsNewest(prefix, family);
    }
  }

  /**
   * A family without a tombstone has exactly one live row, its newest, and every other row of it is
   * consumed and names its successor. A family with a tombstone has no live row.
   */
  lemma FamilyIsAChain(s: Store, family: FamilyId)
    requires ChainInv(s) && family in s.families
    ensures s.families[family].revokedAt.None? ==>
      exists n: nat :: n < |s.rows| && s.rows[n].family == family && IsSoleLiveRow(s.rows, n)
    ensures s.families[family].revokedAt.Some? ==>
      forall i :: 0 <= i < |s.rows| && s.rows[i].family == family ==> !Live(s.rows[i])
  {
    var n := SomeRowIsNewest(s.rows, family);
    assert RowInv(s, n);
    forall i: nat | i < |s.rows| && s.rows[i].family == family
      ensures RowInv(s, i) && (i == n || !Newest(s.rows, i))
    {
    }
  }

  predicate IsSoleLiveRow(rows: seq<TokenRow>, n: nat)
    requires n < |rows|
  {
    && Live(rows[n]) && Newest(rows, n)
    && forall i :: 0 <= i < |rows| && i != n && rows[i].family == rows[n].family ==>
         rows[i].consumedAt.Some? && HasSuccessor(rows, i)
  }

  function ChainLength(rows: seq<TokenRow>, family: FamilyId): nat {
    if rows == [] then 0
    else ChainLength(rows[..|rows| - 1], family) + if rows[|rows| - 1].family == family then 1 else 0
  }

  lemma {:induction false} NothingRevokedYet(rows: seq<TokenRow>, family: FamilyId)
    requires forall i :: 0 <= i < |rows| && rows[i].family == family ==> rows[i].revokedAt.None?
    ensures Unrevoked(rows, family) == ChainLength(rows, family)
  {
    if rows != [] {
      NothingRevokedYet(rows[..|rows| - 1], family);
    }
  }

  /** Presenting a spent token of a live, unexpired family is a replay that revokes the whole chain. */
  lemma ReplayRevokesTheChain(s: Store, r: AdvanceRequest, i: nat)
    requires ChainInv(s) && i < |s.rows|
    requires s.rows[i].digest == r.presented && s.rows[i].consumedAt.Some?
    requires s.rows[i].family in s.families
    requires var f := s.families[s.rows[i].family]; f.revokedAt.None? && r.now < f.expiresAt
    ensures Transition(s, r) == Replayed(ChainLength(s.rows, s.rows[i].family))
    ensures AfterAdvance(s, r).families[s.rows[i].family].revokedAt == Some(r.now)
  {
    assert RowInv(s, i);
    assert PositionOf(s.rows, r.presented).value == i;
    forall j: nat | j < |s.rows| && s.rows[j].family == s.rows[i].family
      ensures s.rows[j].revokedAt.None?
    {
      assert RowInv(s, j);
    }
    NothingRevokedYet(s.rows, s.rows[i].family);
  }

  // ---- Every step keeps it -------------------------------------------------------------------

  lemma BeginKeepsChain(s: Store, n: NewRefreshFamily)
    requires ChainInv(s) && n.family !in s.families && n.tokenExpiresAt <= n.familyExpiresAt
    requires forall i :: 0 <= i < |s.rows| ==> s.rows[i].digest != n.firstToken
    ensures ChainInv(Begun(s, n))
  {
    var t := Begun(s, n);
    forall i: nat | i < |t.rows|
      ensures RowInv(t, i)
    {
      if i < |s.rows| {
        assert RowInv(s, i);
        AppendOther(s.rows, t.rows[|s.rows|], i);
      }
    }
    forall f | f in t.families
      ensures HasRow(t.rows, f)
    {
      if f == n.family {
        assert t.rows[|s.rows|].family == f;
      } else {
        AppendKeepsRows(s.rows, t.rows[|s.rows|], f);
      }
    }
  }

  lemma AppendKeepsRows(rows: seq<TokenRow>, row: TokenRow, family: FamilyId)
    requires HasRow(rows, family)
    ensures HasRow(rows + [row], family)
  {
    var i :| 0 <= i < |rows| && rows[i].family == family;
    assert (rows + [row])[i].family == family;
  }

  lemma AppendOther(rows: seq<TokenRow>, row: TokenRow, i: nat)
    requires i < |rows| && rows[i].family != row.family
    ensures Newest(rows + [row], i) <==> Newest(rows, i)
    ensures HasSuccessor(rows, i) ==> HasSuccessor(rows + [row], i)
  {
    var more := rows + [row];
    assert forall j :: 0 <= j < |rows| ==> more[j] == rows[j];
    if HasSuccessor(rows, i) {
      var j: nat :| j < |rows| && ReplacedBy(rows, i, j);
      assert ReplacedBy(more, i, j);
    }
  }

  lemma RevokeKeepsRow(s: Store, family: FamilyId, now: int, i: nat)
    requires i < |s.rows| && RowInv(s, i)
    ensures RowInv(RevokedAll(s, family, now), i)
  {
    var t := RevokedAll(s, family, now);
    assert forall j :: 0 <= j < |t.rows| ==> t.rows[j] == Stamped(s.rows[j], family, now);
    assert forall j :: 0 <= j < |t.rows| ==> t.rows[j].family == s.rows[j].family;
    assert Newest(t.rows, i) <==> Newest(s.rows, i);
    if HasSuccessor(s.rows, i) {
      var j: nat :| j < |s.rows| && ReplacedBy(s.rows, i, j);
      assert ReplacedBy(t.rows, i, j);
    }
  }

  lemma RevokeKeepsChain(s: Store, family: FamilyId, now: int)
    requires ChainInv(s)
    ensures ChainInv(RevokedAll(s, family, now))
  {
    var t := RevokedAll(s, family, now);
    forall i: nat | i < |t.rows|
      ensures RowInv(t, i)
    {
      RevokeKeepsRow(s, family, now, i);
    }
    forall f | f in t.families
      ensures HasRow(t.rows, f)
    {
      var i :| 0 <= i < |s.rows| && s.rows[i].family == f;
      assert t.rows[i].family == f;
    }
  }

  lemma AdvanceKeepsChain(s: Store, r: AdvanceRequest)
    requires ChainInv(s)
    requires forall i :: 0 <= i < |s.rows| ==> s.rows[i].digest != r.successor
    requires GrantFor(s, r.presented).Some? ==>
      r.successorExpiresAt <= GrantFor(s, r.presented).value.familyExpiresAt
    ensures ChainInv(AfterAdvance(s, r))
  {
    match Transition(s, r)
    case Advanced =>
      var t, p := AfterAdvance(s, r), PositionOf(s.rows, r.presented).value;
      var last := |s.rows|;
      assert RowInv(s, p);
      forall i: nat | i < |t.rows|
        ensures RowInv(t, i)
      {
        if i < last {
          AdvanceKeepsRow(s, r, i);
        }
      }
      forall f | f in t.families
        ensures HasRow(t.rows, f)
      {
        var i :| 0 <= i < |s.rows| && s.rows[i].family == f;
        assert t.rows[i].family == f;
      }
    case Replayed(_) =>
      RevokeKeepsChain(s, s.rows[PositionOf(s.rows, r.presented).value].family, r.now);
    case _ =>
  }

  lemma AdvanceKeepsRow(s: Store, r: AdvanceRequest, i: nat)
    requires ChainInv(s) && Transition(s, r) == Advanced && i < |s.rows|
    ensures RowInv(AfterAdvance(s, r), i)
  {
    var t, p, last := AfterAdvance(s, r), PositionOf(s.rows, r.presented).value, |s.rows|;
    assert RowInv(s, i) && RowInv(s, p);
    assert forall j :: 0 <= j < last ==> t.rows[j].family == s.rows[j].family && t.rows[j].id == s.rows[j].id;
    if i == p {
      assert Newest(s.rows, p);
      assert ReplacedBy(t.rows, p, last);
    } else {
      if t.rows[i].family == t.rows[last].family {
        assert !Newest(s.rows, i) by {
          if i < p { assert s.rows[p].family == s.rows[i].family; }
        }
      }
      assert Newest(t.rows, i) <==> Newest(s.rows, i);
      if HasSuccessor(s.rows, i) {
        var j: nat :| j < last && ReplacedBy(s.rows, i, j);
        assert ReplacedBy(t.rows, i, j);
      }
    }
  }

  /** The row just inserted is the family's one live row, and it has not expired. */
  lemma AdvanceLeavesOneLiveSuccessor(s: Store, r: AdvanceRequest)
    requires ChainInv(s) && ChainInv(AfterAdvance(s, r)) && Transition(s, r) == Advanced
    ensures var t := AfterAdvance(s, r);
      IsSoleLiveRow(t.rows, |s.rows|) && t.rows[|s.rows|].digest == r.successor
  {
    var t := AfterAdvance(s, r);
    forall i: nat | i < |s.rows| && t.rows[i].family == t.rows[|s.rows|].family
      ensures t.rows[i].consumedAt.Some? && HasSuccessor(t.rows, i)
    {
      assert RowInv(t, i);
    }
  }
}

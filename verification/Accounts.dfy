/** The three stores behind accounts: users, credentials, and mailed single-use tokens. */
module Accounts {
  import opened Wrappers
  import opened Opaque

  type UserId = nat

  type PasswordHash = nat

  datatype UserRecord = UserRecord(id: UserId, email: string, verifiedAt: Option<int>)

  datatype CredentialRecord = CredentialRecord(userId: UserId, hash: PasswordHash, mustChange: bool)

  datatype MailedToken = MailedToken(owner: UserId, digest: SecretDigest, expiresAt: int, consumedAt: Option<int>)

  datatype Registration = Created(id: UserId) | AlreadyRegistered

  // ---- Users ---------------------------------------------------------------------------------

  function UserAt(rows: seq<UserRecord>, email: string): (i: Option<nat>)
    ensures i.Some? ==> i.value < |rows| && rows[i.value].email == email
    ensures i.None? ==> forall j :: 0 <= j < |rows| ==> rows[j].email != email
  {
    if rows == [] then None
    else
      var i := UserAt(rows[..|rows| - 1], email);
      if i.Some? then i
      else if rows[|rows| - 1].email == email then Some(|rows| - 1)
      else None
  }

  /** Identities are handed out in order, so a new one was never used before. */
  function NewUser(rows: seq<UserRecord>, email: string): UserRecord {
    UserRecord(|rows| + 1, email, None)
  }

  /** The first confirming instant wins. */
  function Verified(row: UserRecord, id: UserId, now: int): UserRecord {
    if row.id == id && row.verifiedAt.None? then row.(verifiedAt := Some(now)) else row
  }

  /** `id` verified at `now`, in the one row that carries it; an unknown `id` changes nothing. */
  function MarkedVerified(rows: seq<UserRecord>, id: UserId, now: int): seq<UserRecord> {
    if rows == [] then []
    else if rows[0].id == id then [Verified(rows[0], id, now)] + rows[1..]
    else [rows[0]] + MarkedVerified(rows[1..], id, now)
  }

  class Users {
    var rows: seq<UserRecord>

    constructor ()
      ensures rows == []
    {
      rows := [];
    }

    method Position(email: string) returns (i: Option<nat>)
      ensures i.Some? ==> i.value < |rows| && rows[i.value].email == email
      ensures i.Some? ==> forall j :: 0 <= j < i.value ==> rows[j].email != email
      ensures i.None? ==> forall j :: 0 <= j < |rows| ==> rows[j].email != email
    {
      for k := 0 to |rows|
        invariant forall j :: 0 <= j < k ==> rows[j].email != email
      {
        if rows[k].email == email {
          return Some(k);
        }
      }
      return None;
    }

    method Register(email: string) returns (r: Registration)
      modifies this
      ensures UserAt(old(rows), email).Some? ==> r == AlreadyRegistered && rows == old(rows)
      ensures UserAt(old(rows), email).None? ==>
        r == Created(|old(rows)| + 1) && rows == old(rows) + [NewUser(old(rows), email)]
    {
      var i := Position(email);
      if i.Some? {
        return AlreadyRegistered;
      }
      rows := rows + [UserRecord(|rows| + 1, email, None)];
      return Created(|rows|);
    }

    method FindByEmail(email: string) returns (u: Option<UserRecord>)
      ensures u == if UserAt(rows, email).Some? then Some(rows[UserAt(rows, email).value]) else None
    {
      var i := Position(email);
      if i.None? {
        return None;
      }
      FirstUserIs(rows, email, i.value);
      return Some(rows[i.value]);
    }

    method MarkEmailVerified(id: UserId, now: int)
      modifies this
      ensures rows == MarkedVerified(old(rows), id, now)
    {
      for k := 0 to |rows|
        invariant rows == old(rows) && forall j :: 0 <= j < k ==> rows[j].id != id
      {
        if rows[k].id == id {
          MarkedVerifiedAt(rows, id, now, k);
          rows := rows[k := if rows[k].verifiedAt.None? then rows[k].(verifiedAt := Some(now)) else rows[k]];
          return;
        }
      }
      MarkedVerifiedNowhere(rows, id, now);
    }
  }

  lemma {:induction false} FirstUserIs(rows: seq<UserRecord>, email: string, i: nat)
    requires i < |rows| && rows[i].email == email && forall j :: 0 <= j < i ==> rows[j].email != email
    ensures UserAt(rows, email) == Some(i)
  {
    if i < |rows| - 1 {
      FirstUserIs(rows[..|rows| - 1], email, i);
    }
  }

  lemma {:induction false} MarkedVerifiedAt(rows: seq<UserRecord>, id: UserId, now: int, k: nat)
    requires k < |rows| && rows[k].id == id && forall j :: 0 <= j < k ==> rows[j].id != id
    ensures MarkedVerified(rows, id, now) == rows[k := Verified(rows[k], id, now)]
  {
    if k > 0 {
      MarkedVerifiedAt(rows[1..], id, now, k - 1);
    }
  }

  lemma {:induction false} MarkedVerifiedNowhere(rows: seq<UserRecord>, id: UserId, now: int)
    requires forall j :: 0 <= j < |rows| ==> rows[j].id != id
    ensures MarkedVerified(rows, id, now) == rows
  {
    if rows != [] {
      MarkedVerifiedNowhere(rows[1..], id, now);
    }
  }

  // ---- Credentials ---------------------------------------------------------------------------

  function CredentialOf(rows: seq<CredentialRecord>, id: UserId): Option<CredentialRecord> {
    if rows == [] then None
    else if rows[0].userId == id then Some(rows[0])
    else CredentialOf(rows[1..], id)
  }

  function Others(rows: seq<CredentialRecord>, id: UserId): seq<CredentialRecord> {
    if rows == [] then []
    else (if rows[0].userId == id then [] else [rows[0]]) + Others(rows[1..], id)
  }

  function Upserted(rows: seq<CredentialRecord>, id: UserId, hash: PasswordHash): seq<CredentialRecord> {
    Others(rows, id) + [CredentialRecord(id, hash, false)]
  }

  /** The store behaves as a map: an upsert replaces one user's credential and no other. */
  lemma {:induction false} UpsertIsAMapUpdate(
      rows: seq<CredentialRecord>, id: UserId, hash: PasswordHash, other: UserId)
    ensures CredentialOf(Upserted(rows, id, hash), other)
      == if other == id then Some(CredentialRecord(id, hash, false)) else CredentialOf(rows, other)
  {
    if rows == [] {
      assert Upserted(rows, id, hash)[1..] == [];
    } else {
      UpsertIsAMapUpdate(rows[1..], id, hash, other);
      if rows[0].userId == id {
        assert Upserted(rows, id, hash) == Upserted(rows[1..], id, hash);
      } else {
        assert Upserted(rows, id, hash)[1..] == Upserted(rows[1..], id, hash);
        assert Upserted(rows, id, hash)[0] == rows[0];
      }
    }
  }

  class Credentials {
    var rows: seq<CredentialRecord>

    constructor ()
      ensures rows == []
    {
      rows := [];
    }

    method Upsert(id: UserId, hash: PasswordHash)
      modifies this
      ensures rows == Upserted(old(rows), id, hash)
    {
      var kept: seq<CredentialRecord> := [];
      for k := 0 to |rows|
        invariant rows == old(rows)
        invariant kept + Others(rows[k..], id) == Others(rows, id)
      {
        if rows[k].userId != id {
          kept := kept + [rows[k]];
        }
        assert rows[k..][1..] == rows[k + 1..];
      }
      rows := kept + [CredentialRecord(id, hash, false)];
    }

    method Find(id: UserId) returns (c: Option<CredentialRecord>)
      ensures c == CredentialOf(rows, id)
    {
      for k := 0 to |rows|
        invariant CredentialOf(rows[k..], id) == CredentialOf(rows, id)
      {
        if rows[k].userId == id {
          return Some(rows[k]);
        }
        assert rows[k..][1..] == rows[k + 1..];
      }
      return None;
    }
  }

  // ---- Mailed tokens -------------------------------------------------------------------------

  predicate Consumable(row: MailedToken, digest: SecretDigest, now: int) {
    row.digest == digest && row.consumedAt.None? && row.expiresAt > now
  }

  /** The first row a presentation of `digest` at `now` can consume. */
  function ConsumableAt(rows: seq<MailedToken>, digest: SecretDigest, now: int): (i: Option<nat>)
    ensures i.Some? ==> i.value < |rows| && Consumable(rows[i.value], digest, now)
    ensures i.None? ==> forall j :: 0 <= j < |rows| ==> !Consumable(rows[j], digest, now)
  {
    if rows == [] then None
    else
      var i := ConsumableAt(rows[..|rows| - 1], digest, now);
      if i.Some? then i
      else if Consumable(rows[|rows| - 1], digest, now) then Some(|rows| - 1)
      else None
  }

  function ConsumedAt(rows: seq<MailedToken>, i: nat, now: int): seq<MailedToken>
    requires i < |rows|
  {
    rows[i := rows[i].(consumedAt := Some(now))]
  }

  function Invalidated(row: MailedToken, owner: UserId, now: int): MailedToken {
    if row.owner == owner && row.consumedAt.None? then row.(consumedAt := Some(now)) else row
  }

  function InvalidatedFor(rows: seq<MailedToken>, owner: UserId, now: int): seq<MailedToken> {
    seq(|rows|, i requires 0 <= i < |rows| => Invalidated(rows[i], owner, now))
  }

  function WithIssued(rows: seq<MailedToken>, owner: UserId, digest: SecretDigest, expiresAt: int): seq<MailedToken> {
    rows + [MailedToken(owner, digest, expiresAt, None)]
  }

  /** How many tokens of `owner` are unconsumed. */
  function Unconsumed(rows: seq<MailedToken>, owner: UserId): nat {
    if rows == [] then 0
    else
      var last := rows[|rows| - 1];
      Unconsumed(rows[..|rows| - 1], owner) + if last.owner == owner && last.consumedAt.None? then 1 else 0
  }

  lemma {:induction false} InvalidationLeavesNone(rows: seq<MailedToken>, owner: UserId, now: int)
    ensures Unconsumed(InvalidatedFor(rows, owner, now), owner) == 0
  {
    if rows != [] {
      InvalidationLeavesNone(rows[..|rows| - 1], owner, now);
      var after := InvalidatedFor(rows, owner, now);
      assert after[..|after| - 1] == InvalidatedFor(rows[..|rows| - 1], owner, now);
    }
  }

  lemma IssueAddsOne(rows: seq<MailedToken>, owner: UserId, digest: SecretDigest, expiresAt: int, other: UserId)
    ensures Unconsumed(WithIssued(rows, owner, digest, expiresAt), other)
      == Unconsumed(rows, other) + if owner == other then 1 else 0
  {
    var after := WithIssued(rows, owner, digest, expiresAt);
    assert after[..|after| - 1] == rows;
  }

  /** Rows whose owner and consumption agree count alike; stamping rows never raises the count. */
  lemma {:induction false} StampingNeverRaises(rows: seq<MailedToken>, after: seq<MailedToken>, owner: UserId)
    requires |rows| == |after|
    requires forall i :: 0 <= i < |rows| ==>
      rows[i].owner == after[i].owner && (after[i].consumedAt.None? ==> rows[i].consumedAt.None?)
    ensures Unconsumed(after, owner) <= Unconsumed(rows, owner)
  {
    if rows != [] {
      StampingNeverRaises(rows[..|rows| - 1], after[..|after| - 1], owner);
    }
  }

  /** The same token, perhaps stamped since. */
  predicate TokenKept(a: MailedToken, b: MailedToken) {
    && a.owner == b.owner && a.digest == b.digest && a.expiresAt == b.expiresAt
    && (a.consumedAt.Some? ==> b.consumedAt == a.consumedAt)
  }

  predicate TokensExtend(a: seq<MailedToken>, b: seq<MailedToken>) {
    |a| <= |b| && forall i :: 0 <= i < |a| ==> TokenKept(a[i], b[i])
  }

  lemma ExtendingIsTransitive(a: seq<MailedToken>, b: seq<MailedToken>, c: seq<MailedToken>)
    requires TokensExtend(a, b) && TokensExtend(b, c)
    ensures TokensExtend(a, c)
  {
    forall i | 0 <= i < |a|
      ensures TokenKept(a[i], c[i])
    {
      assert TokenKept(a[i], b[i]) && TokenKept(b[i], c[i]);
    }
  }

  predicate DigestsDiffer(rows: seq<MailedToken>) {
    forall i, j :: 0 <= i < j < |rows| ==> rows[i].digest != rows[j].digest
  }

  class Tokens {
    var rows: seq<MailedToken>

    constructor ()
      ensures rows == []
    {
      rows := [];
    }

    method Issue(owner: UserId, digest: SecretDigest, expiresAt: int)
      modifies this
      ensures rows == WithIssued(old(rows), owner, digest, expiresAt)
    {
      rows := rows + [MailedToken(owner, digest, expiresAt, None)];
    }

    method InvalidateAllFor(owner: UserId, now: int) returns (swept: nat)
      modifies this
      ensures rows == InvalidatedFor(old(rows), owner, now)
      ensures swept == Unconsumed(old(rows), owner)
    {
      ghost var before := rows;
      swept := 0;
      for i := 0 to |rows|
        invariant |rows| == |before|
        invariant forall j :: 0 <= j < i ==> rows[j] == Invalidated(before[j], owner, now)
        invariant forall j :: i <= j < |rows| ==> rows[j] == before[j]
        invariant swept == Unconsumed(before[..i], owner)
      {
        assert before[..i + 1][..i] == before[..i];
        if rows[i].owner == owner && rows[i].consumedAt.None? {
          rows := rows[i := rows[i].(consumedAt := Some(now))];
          swept := swept + 1;
        }
      }
      assert before[..|before|] == before;
      assert rows == InvalidatedFor(before, owner, now);
    }

    /** One answer for unknown, consumed and expired. */
    method Consume(digest: SecretDigest, now: int) returns (owner: Option<UserId>)
      modifies this
      ensures var i := ConsumableAt(old(rows), digest, now);
        if i.Some? then owner == Some(old(rows)[i.value].owner) && rows == ConsumedAt(old(rows), i.value, now)
        else owner == None && rows == old(rows)
      ensures owner.Some? <==> exists row ::
        row in old(rows) && row.digest == digest && row.consumedAt.None? && now < row.expiresAt
    {
      for i := 0 to |rows|
        invariant rows == old(rows)
        invariant forall j :: 0 <= j < i ==> !Consumable(rows[j], digest, now)
      {
        if rows[i].digest == digest && rows[i].consumedAt.None? && rows[i].expiresAt > now {
          FirstConsumableIs(rows, digest, now, i);
          owner := Some(rows[i].owner);
          rows := rows[i := rows[i].(consumedAt := Some(now))];
          return;
        }
      }
      return None;
    }
  }

  lemma {:induction false} FirstConsumableIs(rows: seq<MailedToken>, digest: SecretDigest, now: int, i: nat)
    requires i < |rows| && Consumable(rows[i], digest, now)
    requires forall j :: 0 <= j < i ==> !Consumable(rows[j], digest, now)
    ensures ConsumableAt(rows, digest, now) == Some(i)
  {
    if i < |rows| - 1 {
      FirstConsumableIs(rows[..|rows| - 1], digest, now, i);
    }
  }
}

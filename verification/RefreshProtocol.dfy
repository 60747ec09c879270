/**
 * Any number of refresh clients over one store: each reads the grant, prepares its secrets, and then asks
 * for one atomic `advance`, while families begin and are revoked between those steps. One step is one port
 * call or one preparation; a step that is not enabled does nothing.
 */
module RefreshProtocol {
  import opened Wrappers
  import Attempts
  import opened Opaque
  import opened RefreshStore
  import opened RefreshChain
  import opened RefreshRotation

  datatype Phase =
    | Reading
    | Prepared(id: TokenId, successor: SecretDigest)
    | Done(transition: Option<RefreshTransition>)

  /** One rotation in flight: what it presented, when, and the grant it read. */
  datatype Client = Client(presented: SecretDigest, now: int, grant: RefreshGrant, phase: Phase)

  /** A pair that was handed out: the token it spent, and the digest and expiry of the one it gave. */
  datatype Handout = Handout(
    client: nat, presented: SecretDigest, successor: SecretDigest, family: FamilyId,
    user: UserId, scopes: set<string>, at: int, expiresAt: int)

  /** `used` holds every digest ever generated; `handouts` every pair ever released, in order. */
  datatype World = World(store: Store, clients: map<nat, Client>, used: set<SecretDigest>, handouts: seq<Handout>)

  const INIT: World := World(Store(map[], []), map[], {}, [])

  datatype Step =
    | Begin(family: FamilyId, user: UserId, scopes: set<string>, tokenId: TokenId, secret: Opaque, at: int)
    | Revoke(revokedFamily: FamilyId, at: int)
    | Read(client: nat, presented: SecretDigest, at: int)
    | Prepare(client: nat, tokenId: TokenId, secret: Opaque)
    | PrepareFails(client: nat)
    | Advance(client: nat)
    | AdvanceFails(client: nat)

  predicate Enabled(w: World, step: Step) {
    match step
    case Begin(family, _, _, _, secret, _) => family !in w.store.families && Digest(secret) !in w.used
    case Revoke(_, _) => true
    case Read(c, presented, _) => c !in w.clients && GrantFor(w.store, presented).Some?
    case Prepare(c, _, secret) => c in w.clients && w.clients[c].phase.Reading? && Digest(secret) !in w.used
    case PrepareFails(c) => c in w.clients && w.clients[c].phase.Reading?
    case Advance(c) => c in w.clients && w.clients[c].phase.Prepared?
    case AdvanceFails(c) => c in w.clients && w.clients[c].phase.Prepared?
  }

  function RequestFor(lifetimes: Lifetimes, c: Client): AdvanceRequest
    requires c.phase.Prepared?
  {
    AdvanceRequest(
      c.presented, c.phase.id, c.phase.successor, TokenExpiry(c.now, lifetimes, c.grant.familyExpiresAt), c.now)
  }

  function HandoutOf(lifetimes: Lifetimes, id: nat, c: Client): Handout
    requires c.phase.Prepared?
  {
    Handout(id, c.presented, c.phase.successor, c.grant.family, c.grant.user, c.grant.scopes, c.now,
            TokenExpiry(c.now, lifetimes, c.grant.familyExpiresAt))
  }

  function Apply(lifetimes: Lifetimes, w: World, step: Step): World {
    if !Enabled(w, step) then w
    else match step
      case Begin(family, user, scopes, tokenId, secret, at) =>
        w.(store := Begun(w.store, NewFamily(user, scopes, at, family, tokenId, secret, lifetimes)),
           used := w.used + {Digest(secret)})
      case Revoke(family, at) => w.(store := RevokedAll(w.store, family, at))
      case Read(c, presented, at) =>
        w.(clients := w.clients[c := Client(presented, at, GrantFor(w.store, presented).value, Reading)])
      case Prepare(c, tokenId, secret) =>
        w.(clients := w.clients[c := w.clients[c].(phase := Prepared(tokenId, Digest(secret)))],
           used := w.used + {Digest(secret)})
      case PrepareFails(c) => w.(clients := w.clients[c := w.clients[c].(phase := Done(None))])
      case Advance(c) =>
        var client := w.clients[c];
        var r := RequestFor(lifetimes, client);
        var t := Transition(w.store, r);
        w.(store := AfterAdvance(w.store, r),
           clients := w.clients[c := client.(phase := Done(Some(t)))],
           handouts := if t.Advanced? then w.handouts + [HandoutOf(lifetimes, c, client)] else w.handouts)
      case AdvanceFails(c) => w.(clients := w.clients[c := w.clients[c].(phase := Done(None))])
  }

  function After(lifetimes: Lifetimes, steps: seq<Step>): World {
    if steps == [] then INIT
    else Apply(lifetimes, After(lifetimes, steps[..|steps| - 1]), steps[|steps| - 1])
  }

  // ---- What a step of the store never changes ------------------------------------------------

  predicate FamilyKept(f: Family, g: Family) {
    && f.user == g.user && f.scopes == g.scopes && f.expiresAt == g.expiresAt
    && (f.revokedAt.Some? ==> g.revokedAt == f.revokedAt)
  }

  predicate RowKept(a: TokenRow, b: TokenRow) {
    && a.id == b.id && a.family == b.family && a.digest == b.digest && a.expiresAt == b.expiresAt
    && (a.consumedAt.Some? ==> b.consumedAt == a.consumedAt && b.replacedBy == a.replacedBy)
    && (a.revokedAt.Some? ==> b.revokedAt == a.revokedAt)
  }

  predicate Ended(s: Store, family: FamilyId) {
    family in s.families && s.families[family].revokedAt.Some?
  }

  /** `t` is `s` some steps later: nothing set is unset, and no tombstoned family gained a row. */
  predicate Extends(s: Store, t: Store) {
    && (forall f :: f in s.families ==> f in t.families && FamilyKept(s.families[f], t.families[f]))
    && |s.rows| <= |t.rows|
    && (forall i :: 0 <= i < |s.rows| ==> RowKept(s.rows[i], t.rows[i]))
    && (forall i :: |s.rows| <= i < |t.rows| ==> !Ended(s, t.rows[i].family))
  }

  lemma ExtendsIsTransitive(s: Store, t: Store, u: Store)
    requires Extends(s, t) && Extends(t, u)
    ensures Extends(s, u)
  {
    forall i | |s.rows| <= i < |u.rows|
      ensures !Ended(s, u.rows[i].family)
    {
      if i < |t.rows| {
        assert RowKept(t.rows[i], u.rows[i]);
      }
    }
    forall i | 0 <= i < |s.rows|
      ensures RowKept(s.rows[i], u.rows[i])
    {
      assert RowKept(s.rows[i], t.rows[i]) && RowKept(t.rows[i], u.rows[i]);
    }
  }

  lemma BegunExtends(s: Store, n: NewRefreshFamily)
    requires n.family !in s.families
    ensures Extends(s, Begun(s, n))
  {
  }

  lemma RevokedExtends(s: Store, family: FamilyId, now: int)
    ensures Extends(s, RevokedAll(s, family, now))
    ensures forall i :: 0 <= i < |s.rows| ==> RevokedAll(s, family, now).rows[i].digest == s.rows[i].digest
  {
  }

  lemma AdvanceExtends(s: Store, r: AdvanceRequest)
    ensures Extends(s, AfterAdvance(s, r))
    ensures var t := AfterAdvance(s, r);
      forall i :: 0 <= i < |t.rows| ==>
        t.rows[i].digest == if i < |s.rows| then s.rows[i].digest else r.successor
    ensures Transition(s, r) != Advanced ==> |AfterAdvance(s, r).rows| == |s.rows|
  {
    match Transition(s, r)
    case Replayed(_) => RevokedExtends(s, s.rows[PositionOf(s.rows, r.presented).value].family, r.now);
    case _ =>
  }

  lemma StepExtends(lifetimes: Lifetimes, w: World, step: Step)
    ensures Extends(w.store, Apply(lifetimes, w, step).store)
  {
    if Enabled(w, step) {
      match step
      case Begin(family, user, scopes, tokenId, secret, at) =>
        BegunExtends(w.store, NewFamily(user, scopes, at, family, tokenId, secret, lifetimes));
      case Revoke(family, at) => RevokedExtends(w.store, family, at);
      case Advance(c) => AdvanceExtends(w.store, RequestFor(lifetimes, w.clients[c]));
      case _ =>
    }
  }

  /** One transition changes one family: every row and family besides the presented token's is untouched. */
  lemma AdvanceTouchesOneFamily(s: Store, r: AdvanceRequest, other: FamilyId)
    requires PositionOf(s.rows, r.presented).Some? ==> s.rows[PositionOf(s.rows, r.presented).value].family != other
    ensures var t := AfterAdvance(s, r);
      && (other in t.families <==> other in s.families)
      && (other in s.families ==> t.families[other] == s.families[other])
      && (forall i :: 0 <= i < |s.rows| && s.rows[i].family == other ==> t.rows[i] == s.rows[i])
      && (forall i :: |s.rows| <= i < |t.rows| ==> t.rows[i].family != other)
  {
  }

  // ---- The invariant ---------------------------------------------------------------------------

  predicate Holds(rows: seq<TokenRow>, digest: SecretDigest) {
    exists i :: 0 <= i < |rows| && rows[i].digest == digest
  }

  predicate ClientInv(w: World, id: nat)
    requires id in w.clients
  {
    var c := w.clients[id];
    && GrantFor(w.store, c.presented) == Some(c.grant)
    && (c.phase.Prepared? ==> c.phase.successor in w.used && !Holds(w.store.rows, c.phase.successor))
    && (c.phase == Done(Some(Advanced)) ==> exists k :: 0 <= k < |w.handouts| && IsHandoutOf(w, k, id))
  }

  predicate IsHandoutOf(w: World, k: nat, id: nat)
    requires k < |w.handouts| && id in w.clients
  {
    w.handouts[k].client == id && w.handouts[k].presented == w.clients[id].presented
  }

  predicate HandoutInv(s: Store, h: Handout) {
    && (exists i, j :: 0 <= i < j < |s.rows| && Handed(s.rows[i], s.rows[j], h))
    && h.family in s.families
    && h.user == s.families[h.family].user && h.scopes == s.families[h.family].scopes
    && h.at < h.expiresAt <= s.families[h.family].expiresAt
  }

  /**
   * The one row is the token the pair spent, before that token's own expiry; the other, which replaced it, is the
   * token the pair handed out.
   */
  predicate Handed(spent: TokenRow, given: TokenRow, h: Handout) {
    && spent.digest == h.presented && spent.family == h.family && spent.consumedAt == Some(h.at)
    && h.at < spent.expiresAt
    && given.digest == h.successor && given.family == h.family && given.expiresAt == h.expiresAt
    && spent.replacedBy == Some(given.id)
  }

  predicate UsedInv(w: World) {
    forall i :: 0 <= i < |w.store.rows| ==> w.store.rows[i].digest in w.used
  }

  predicate ClientsInv(w: World) {
    forall id :: id in w.clients ==> ClientInv(w, id)
  }

  predicate SuccessorsInv(w: World) {
    forall a, b :: a in w.clients && b in w.clients && a != b ==> SuccessorsDiffer(w.clients[a], w.clients[b])
  }

  predicate HandoutsInv(w: World) {
    && (forall k :: 0 <= k < |w.handouts| ==> HandoutInv(w.store, w.handouts[k]))
    && (forall j, k :: 0 <= j < k < |w.handouts| ==> w.handouts[j].presented != w.handouts[k].presented)
  }

  predicate Inv(w: World) {
    ChainInv(w.store) && UsedInv(w) && ClientsInv(w) && SuccessorsInv(w) && HandoutsInv(w)
  }

  predicate SuccessorsDiffer(a: Client, b: Client) {
    a.phase.Prepared? && b.phase.Prepared? ==> a.phase.successor != b.phase.successor
  }

  /** The optimistic read is safe: whatever the store does next, a grant once read is the grant still. */
  lemma GrantIsStable(s: Store, t: Store, digest: SecretDigest)
    requires DigestsDiffer(t.rows) && Extends(s, t) && GrantFor(s, digest).Some?
    ensures GrantFor(t, digest) == GrantFor(s, digest)
  {
    var p, q := PositionOf(s.rows, digest).value, PositionOf(t.rows, digest).value;
    assert RowKept(s.rows[p], t.rows[p]);
    assert q == p;
  }

  lemma HandoutIsStable(s: Store, t: Store, h: Handout)
    requires Extends(s, t) && HandoutInv(s, h)
    ensures HandoutInv(t, h)
  {
    var i, j :| 0 <= i < j < |s.rows| && Handed(s.rows[i], s.rows[j], h);
    assert RowKept(s.rows[i], t.rows[i]) && RowKept(s.rows[j], t.rows[j]);
    assert Handed(t.rows[i], t.rows[j], h);
  }

  /** A client the step does not move keeps its invariant, unless the store took its secret. */
  lemma BystanderKeepsInv(w: World, w': World, id: nat)
    requires id in w.clients && id in w'.clients && w'.clients[id] == w.clients[id] && ClientInv(w, id)
    requires DigestsDiffer(w'.store.rows) && Extends(w.store, w'.store)
    requires w.used <= w'.used && w.handouts <= w'.handouts
    requires w.clients[id].phase.Prepared? ==> !Holds(w'.store.rows, w.clients[id].phase.successor)
    ensures ClientInv(w', id)
  {
    GrantIsStable(w.store, w'.store, w.clients[id].presented);
    if w.clients[id].phase == Done(Some(Advanced)) {
      var k :| 0 <= k < |w.handouts| && IsHandoutOf(w, k, id);
      assert IsHandoutOf(w', k, id);
    }
  }

  /** A step of the store that is nobody's advance: at most one row is added, with an unused digest. */
  lemma StoreStepKeepsInv(w: World, t: Store, used: set<SecretDigest>)
    requires UsedInv(w) && ClientsInv(w) && SuccessorsInv(w) && HandoutsInv(w)
    requires DigestsDiffer(t.rows) && Extends(w.store, t) && w.used <= used
    requires forall i :: 0 <= i < |t.rows| ==>
      t.rows[i].digest in used && (t.rows[i].digest in w.used ==> Holds(w.store.rows, t.rows[i].digest))
    ensures var w' := w.(store := t, used := used);
      UsedInv(w') && ClientsInv(w') && SuccessorsInv(w') && HandoutsInv(w')
  {
    var w' := w.(store := t, used := used);
    forall id | id in w'.clients
      ensures ClientInv(w', id)
    {
      assert ClientInv(w, id);
      BystanderKeepsInv(w, w', id);
    }
    forall k | 0 <= k < |w'.handouts|
      ensures HandoutInv(t, w'.handouts[k])
    {
      HandoutIsStable(w.store, t, w.handouts[k]);
    }
    forall a, b | a in w'.clients && b in w'.clients && a != b
      ensures SuccessorsDiffer(w'.clients[a], w'.clients[b])
    {
      assert SuccessorsDiffer(w.clients[a], w.clients[b]);
    }
  }

  lemma BeginKeepsInv(lifetimes: Lifetimes, w: World, step: Step)
    requires Inv(w) && step.Begin? && Enabled(w, step)
    ensures Inv(Apply(lifetimes, w, step))
  {
    var n := NewFamily(step.user, step.scopes, step.at, step.family, step.tokenId, step.secret, lifetimes);
    var t := Begun(w.store, n);
    BeginKeepsChain(w.store, n);
    BegunExtends(w.store, n);
    forall i | 0 <= i < |w.store.rows|
      ensures Holds(w.store.rows, t.rows[i].digest)
    {
      assert t.rows[i] == w.store.rows[i];
    }
    StoreStepKeepsInv(w, t, w.used + {Digest(step.secret)});
  }

  lemma RevokeKeepsInv(w: World, family: FamilyId, now: int)
    requires Inv(w)
    ensures Inv(w.(store := RevokedAll(w.store, family, now)))
  {
    var t := RevokedAll(w.store, family, now);
    RevokeKeepsChain(w.store, family, now);
    RevokedExtends(w.store, family, now);
    StoreStepKeepsInv(w, t, w.used);
    assert w.(store := t, used := w.used) == w.(store := t);
  }

  /** A step that moves one client and leaves the store alone. */
  lemma ClientStepKeepsInv(w: World, c: nat, client: Client, used: set<SecretDigest>)
    requires UsedInv(w) && ClientsInv(w) && SuccessorsInv(w) && HandoutsInv(w) && DigestsDiffer(w.store.rows)
    requires w.used <= used
    requires GrantFor(w.store, client.presented) == Some(client.grant)
    requires client.phase.Prepared? ==> client.phase.successor in used && client.phase.successor !in w.used
    requires !client.phase.Done? || client.phase == Done(None)
    ensures var w' := w.(clients := w.clients[c := client], used := used);
      UsedInv(w') && ClientsInv(w') && SuccessorsInv(w') && HandoutsInv(w')
  {
    var w' := w.(clients := w.clients[c := client], used := used);
    forall id | id in w'.clients
      ensures ClientInv(w', id)
    {
      if id != c {
        assert ClientInv(w, id);
        BystanderKeepsInv(w, w', id);
      }
    }
    forall a, b | a in w'.clients && b in w'.clients && a != b
      ensures SuccessorsDiffer(w'.clients[a], w'.clients[b])
    {
      assert a != c ==> ClientInv(w, a);
      assert b != c ==> ClientInv(w, b);
      assert a != c && b != c ==> SuccessorsDiffer(w.clients[a], w.clients[b]);
    }
  }

  /** `w` once client `c` has advanced the store to `t`. */
  function Moved(lifetimes: Lifetimes, w: World, c: nat, transition: RefreshTransition, t: Store): World
    requires c in w.clients && w.clients[c].phase.Prepared?
  {
    var client := w.clients[c];
    World(t, w.clients[c := client.(phase := Done(Some(transition)))], w.used,
          if transition.Advanced? then w.handouts + [HandoutOf(lifetimes, c, client)] else w.handouts)
  }

  /** The store after `c`'s transition: extended, and by nothing but `c`'s own successor. */
  predicate Takes(w: World, c: nat, transition: RefreshTransition, t: Store)
    requires c in w.clients
  {
    && w.clients[c].phase.Prepared?
    && DigestsDiffer(w.store.rows) && DigestsDiffer(t.rows) && Extends(w.store, t)
    && (forall i :: 0 <= i < |t.rows| ==>
          t.rows[i].digest == if i < |w.store.rows| then w.store.rows[i].digest else w.clients[c].phase.successor)
  }

  lemma AdvanceKeepsClients(lifetimes: Lifetimes, w: World, c: nat, transition: RefreshTransition, t: Store)
    requires UsedInv(w) && ClientsInv(w) && SuccessorsInv(w)
    requires c in w.clients && Takes(w, c, transition, t)
    ensures var w' := Moved(lifetimes, w, c, transition, t); UsedInv(w') && ClientsInv(w') && SuccessorsInv(w')
  {
    var w', client := Moved(lifetimes, w, c, transition, t), w.clients[c];
    assert ClientInv(w, c);
    forall id | id in w'.clients
      ensures ClientInv(w', id)
    {
      assert ClientInv(w, id);
      if id != c {
        assert SuccessorsDiffer(w.clients[id], client);
        BystanderKeepsInv(w, w', id);
      } else {
        GrantIsStable(w.store, t, client.presented);
        if transition.Advanced? {
          assert IsHandoutOf(w', |w.handouts|, c);
        }
      }
    }
    forall a, b | a in w'.clients && b in w'.clients && a != b
      ensures SuccessorsDiffer(w'.clients[a], w'.clients[b])
    {
      assert SuccessorsDiffer(w.clients[a], w.clients[b]);
    }
  }

  /** What was handed out for one token was not handed out for another that is still unspent. */
  lemma UnspentIsNotHandedOut(s: Store, h: Handout, digest: SecretDigest)
    requires HandoutInv(s, h)
    requires forall i :: 0 <= i < |s.rows| && s.rows[i].digest == digest ==> s.rows[i].consumedAt.None?
    ensures h.presented != digest
  {
    var i, j :| 0 <= i < j < |s.rows| && Handed(s.rows[i], s.rows[j], h);
  }

  /** A handout spends a row that was not spent before, so no two handouts spend the same token. */
  lemma AdvanceKeepsHandouts(lifetimes: Lifetimes, w: World, c: nat, transition: RefreshTransition, t: Store)
    requires HandoutsInv(w) && c in w.clients && Extends(w.store, t) && w.clients[c].phase.Prepared?
    requires transition.Advanced? ==> HandoutInv(t, HandoutOf(lifetimes, c, w.clients[c]))
    requires transition.Advanced? ==>
      forall i :: 0 <= i < |w.store.rows| && w.store.rows[i].digest == w.clients[c].presented ==>
        w.store.rows[i].consumedAt.None?
    ensures HandoutsInv(Moved(lifetimes, w, c, transition, t))
  {
    forall k | 0 <= k < |w.handouts|
      ensures HandoutInv(t, w.handouts[k])
    {
      HandoutIsStable(w.store, t, w.handouts[k]);
    }
    if transition.Advanced? {
      forall k | 0 <= k < |w.handouts|
        ensures w.handouts[k].presented != w.clients[c].presented
      {
        UnspentIsNotHandedOut(w.store, w.handouts[k], w.clients[c].presented);
      }
    }
  }

  /** What a successful transition hands out, against the store it leaves. */
  lemma HandoutIsGood(lifetimes: Lifetimes, w: World, c: nat)
    requires c in w.clients && w.clients[c].phase.Prepared? && DigestsDiffer(w.store.rows)
    requires GrantFor(w.store, w.clients[c].presented) == Some(w.clients[c].grant)
    requires Transition(w.store, RequestFor(lifetimes, w.clients[c])) == Advanced
    ensures var client := w.clients[c];
      HandoutInv(AfterAdvance(w.store, RequestFor(lifetimes, client)), HandoutOf(lifetimes, c, client))
    ensures forall i :: 0 <= i < |w.store.rows| && w.store.rows[i].digest == w.clients[c].presented ==>
      w.store.rows[i].consumedAt.None?
  {
    var p := PositionOf(w.store.rows, w.clients[c].presented).value;
    var t := AfterAdvance(w.store, RequestFor(lifetimes, w.clients[c]));
    assert Handed(t.rows[p], t.rows[|w.store.rows|], HandoutOf(lifetimes, c, w.clients[c]));
  }

  lemma AdvanceKeepsStore(lifetimes: Lifetimes, w: World, c: nat)
    requires ChainInv(w.store) && c in w.clients && w.clients[c].phase.Prepared? && ClientInv(w, c)
    ensures ChainInv(AfterAdvance(w.store, RequestFor(lifetimes, w.clients[c])))
  {
    AdvanceKeepsChain(w.store, RequestFor(lifetimes, w.clients[c]));
  }

  /** Advancing moves one client, and what it takes of the store is its own. */
  lemma AdvanceIsMoved(lifetimes: Lifetimes, w: World, c: nat)
    requires Enabled(w, Advance(c)) && ClientInv(w, c)
    requires DigestsDiffer(AfterAdvance(w.store, RequestFor(lifetimes, w.clients[c])).rows)
    ensures var r := RequestFor(lifetimes, w.clients[c]);
      var transition, t := Transition(w.store, r), AfterAdvance(w.store, r);
      && Takes(w, c, transition, t) && Extends(w.store, t)
      && Apply(lifetimes, w, Advance(c)) == Moved(lifetimes, w, c, transition, t)
  {
    AdvanceExtends(w.store, RequestFor(lifetimes, w.clients[c]));
  }

  lemma AdvanceKeepsWorld(lifetimes: Lifetimes, w: World, c: nat)
    requires UsedInv(w) && ClientsInv(w) && SuccessorsInv(w) && HandoutsInv(w)
    requires Enabled(w, Advance(c)) && DigestsDiffer(w.store.rows)
    requires DigestsDiffer(AfterAdvance(w.store, RequestFor(lifetimes, w.clients[c])).rows)
    ensures var w' := Apply(lifetimes, w, Advance(c));
      UsedInv(w') && ClientsInv(w') && SuccessorsInv(w') && HandoutsInv(w')
  {
    var r := RequestFor(lifetimes, w.clients[c]);
    var transition, t := Transition(w.store, r), AfterAdvance(w.store, r);
    AdvanceIsMoved(lifetimes, w, c);
    if transition.Advanced? {
      HandoutIsGood(lifetimes, w, c);
    }
    AdvanceKeepsClients(lifetimes, w, c, transition, t);
    AdvanceKeepsHandouts(lifetimes, w, c, transition, t);
  }

  lemma AdvanceKeepsInv(lifetimes: Lifetimes, w: World, c: nat)
    requires Inv(w) && Enabled(w, Advance(c))
    ensures Inv(Apply(lifetimes, w, Advance(c)))
  {
    assert ClientInv(w, c);
    AdvanceKeepsStore(lifetimes, w, c);
    AdvanceKeepsWorld(lifetimes, w, c);
  }

  lemma StepKeepsInv(lifetimes: Lifetimes, w: World, step: Step)
    requires Inv(w)
    ensures Inv(Apply(lifetimes, w, step))
  {
    if Enabled(w, step) {
      match step
      case Begin(_, _, _, _, _, _) => BeginKeepsInv(lifetimes, w, step);
      case Revoke(_, _) => RevokeKeepsInv(w, step.revokedFamily, step.at);
      case Advance(c) => AdvanceKeepsInv(lifetimes, w, c);
      case Read(c, presented, at) =>
        ClientStepKeepsInv(w, c, Client(presented, at, GrantFor(w.store, presented).value, Reading), w.used);
      case Prepare(c, tokenId, secret) =>
        assert ClientInv(w, c);
        ClientStepKeepsInv(w, c, w.clients[c].(phase := Prepared(tokenId, Digest(secret))), w.used + {Digest(secret)});
      case PrepareFails(c) =>
        assert ClientInv(w, c);
        ClientStepKeepsInv(w, c, w.clients[c].(phase := Done(None)), w.used);
      case AdvanceFails(c) =>
        assert ClientInv(w, c);
        ClientStepKeepsInv(w, c, w.clients[c].(phase := Done(None)), w.used);
    }
  }

  lemma {:induction false} InvHolds(lifetimes: Lifetimes, steps: seq<Step>)
    ensures Inv(After(lifetimes, steps))
  {
    if steps != [] {
      InvHolds(lifetimes, steps[..|steps| - 1]);
      StepKeepsInv(lifetimes, After(lifetimes, steps[..|steps| - 1]), steps[|steps| - 1]);
    }
  }

  // ---- Guarantees over every run ---------------------------------------------------------------

  /**
   * However clients, sign-ins and revocations interleave, every family is a linear chain: without a
   * tombstone exactly one live row, the newest, and every other row consumed and linked to its successor;
   * with a tombstone no live row.
   */
  lemma EveryFamilyIsAChain(lifetimes: Lifetimes, steps: seq<Step>, family: FamilyId)
    requires family in After(lifetimes, steps).store.families
    ensures var s := After(lifetimes, steps).store;
      if s.families[family].revokedAt.None?
      then exists n: nat :: n < |s.rows| && s.rows[n].family == family && IsSoleLiveRow(s.rows, n)
      else forall i :: 0 <= i < |s.rows| && s.rows[i].family == family ==> !Live(s.rows[i])
  {
    InvHolds(lifetimes, steps);
    FamilyIsAChain(After(lifetimes, steps).store, family);
  }

  /** Tombstones and consumption stamps never change once set, and a tombstoned family never gains a row. */
  lemma {:induction false} HistoryIsKept(lifetimes: Lifetimes, steps: seq<Step>, more: seq<Step>)
    ensures Extends(After(lifetimes, steps).store, After(lifetimes, steps + more).store)
  {
    if more == [] {
      assert steps + more == steps;
    } else {
      var before := steps + more[..|more| - 1];
      HistoryIsKept(lifetimes, steps, more[..|more| - 1]);
      assert (steps + more)[..|steps + more| - 1] == before;
      StepExtends(lifetimes, After(lifetimes, before), more[|more| - 1]);
      ExtendsIsTransitive(
        After(lifetimes, steps).store, After(lifetimes, before).store, After(lifetimes, steps + more).store);
    }
  }

  lemma OneHandoutForOneToken(w: World, a: nat, b: nat)
    requires HandoutsInv(w) && a in w.clients && b in w.clients && ClientInv(w, a) && ClientInv(w, b)
    requires w.clients[a].phase == Done(Some(Advanced)) && w.clients[b].phase == Done(Some(Advanced))
    requires w.clients[a].presented == w.clients[b].presented
    ensures a == b
  {
    var j :| 0 <= j < |w.handouts| && IsHandoutOf(w, j, a);
    var k :| 0 <= k < |w.handouts| && IsHandoutOf(w, k, b);
    assert j == k;
  }

  /** Once only: over a whole run a refresh token buys at most one pair, whoever presents it. */
  lemma EachTokenRotatesOnce(lifetimes: Lifetimes, steps: seq<Step>, a: nat, b: nat)
    requires var clients := After(lifetimes, steps).clients;
      && a in clients && clients[a].phase == Done(Some(Advanced))
      && b in clients && clients[b].phase == Done(Some(Advanced))
      && clients[a].presented == clients[b].presented
    ensures a == b
  {
    InvHolds(lifetimes, steps);
    OneHandoutForOneToken(After(lifetimes, steps), a, b);
  }

  /**
   * The optimistic read is safe: every pair handed out carries the user and scopes its family was begun with,
   * at an instant strictly before the token's expiry, which never passes the family's end, and strictly before that
   * of the token it spent; and the token in it is the stored row, of that family and expiry, that replaced the spent
   * one.
   */
  lemma HandoutsCarryTheGrant(lifetimes: Lifetimes, steps: seq<Step>, k: nat)
    requires k < |After(lifetimes, steps).handouts|
    ensures var s, h := After(lifetimes, steps).store, After(lifetimes, steps).handouts[k];
      && h.family in s.families
      && h.user == s.families[h.family].user && h.scopes == s.families[h.family].scopes
      && h.at < h.expiresAt <= s.families[h.family].expiresAt
      && exists i, j :: 0 <= i < j < |s.rows| && h.at < s.rows[i].expiresAt && Handed(s.rows[i], s.rows[j], h)
  {
    InvHolds(lifetimes, steps);
  }

  /** A client that is done stays as it ended. */
  lemma {:induction false} DoneClientsStay(lifetimes: Lifetimes, steps: seq<Step>, more: seq<Step>, c: nat)
    requires c in After(lifetimes, steps).clients && After(lifetimes, steps).clients[c].phase.Done?
    ensures c in After(lifetimes, steps + more).clients
    ensures After(lifetimes, steps + more).clients[c] == After(lifetimes, steps).clients[c]
  {
    if more == [] {
      assert steps + more == steps;
    } else {
      DoneClientsStay(lifetimes, steps, more[..|more| - 1], c);
      assert (steps + more)[..|steps + more| - 1] == steps + more[..|more| - 1];
    }
  }

  /** A grant read by a client is still the grant when it advances, whatever ran in between. */
  lemma GrantsStayTrue(lifetimes: Lifetimes, steps: seq<Step>, c: nat)
    requires c in After(lifetimes, steps).clients
    ensures var w := After(lifetimes, steps);
      GrantFor(w.store, w.clients[c].presented) == Some(w.clients[c].grant)
  {
    InvHolds(lifetimes, steps);
    assert ClientInv(After(lifetimes, steps), c);
  }

  /** After a tombstone, from a replay or a sign-out, no pair of that family is ever handed out again. */
  lemma {:induction false} NothingAfterTheTombstone(
      lifetimes: Lifetimes, steps: seq<Step>, more: seq<Step>, family: FamilyId)
    requires Ended(After(lifetimes, steps).store, family)
    ensures After(lifetimes, steps).handouts <= After(lifetimes, steps + more).handouts
    ensures forall k :: |After(lifetimes, steps).handouts| <= k < |After(lifetimes, steps + more).handouts| ==>
      After(lifetimes, steps + more).handouts[k].family != family
  {
    if more == [] {
      assert steps + more == steps;
    } else {
      var before, step := steps + more[..|more| - 1], more[|more| - 1];
      NothingAfterTheTombstone(lifetimes, steps, more[..|more| - 1], family);
      assert (steps + more)[..|steps + more| - 1] == before;
      HistoryIsKept(lifetimes, steps, more[..|more| - 1]);
      var w := After(lifetimes, before);
      if step.Advance? && Enabled(w, step) {
        GrantsStayTrue(lifetimes, before, step.client);
        if w.clients[step.client].grant.family == family {
          EndedFamilyDoesNotAdvance(w.store, RequestFor(lifetimes, w.clients[step.client]), family);
        }
      }
    }
  }

  lemma EndedFamilyDoesNotAdvance(s: Store, r: AdvanceRequest, family: FamilyId)
    requires Ended(s, family) && GrantFor(s, r.presented).Some? && GrantFor(s, r.presented).value.family == family
    ensures Transition(s, r) == FamilyRevoked
  {
  }

  /** However long after the tombstone, an advance on that family is refused as revoked and writes nothing. */
  lemma AdvanceAfterTheTombstoneIsRefused(
      lifetimes: Lifetimes, steps: seq<Step>, more: seq<Step>, family: FamilyId, c: nat)
    requires Ended(After(lifetimes, steps).store, family)
    requires Enabled(After(lifetimes, steps + more), Advance(c))
    requires After(lifetimes, steps + more).clients[c].grant.family == family
    ensures var w := After(lifetimes, steps + more);
      var w' := Apply(lifetimes, w, Advance(c));
      && w'.store == w.store && w'.handouts == w.handouts
      && w'.clients[c].phase == Done(Some(FamilyRevoked))
  {
    var w := After(lifetimes, steps + more);
    HistoryIsKept(lifetimes, steps, more);
    GrantsStayTrue(lifetimes, steps + more, c);
    EndedFamilyDoesNotAdvance(w.store, RequestFor(lifetimes, w.clients[c]), family);
  }

  /** The client is about to advance row `i`, which is consumed, of a family neither tombstoned nor expired by then. */
  predicate AboutToReplay(w: World, c: nat, i: nat) {
    && c in w.clients && w.clients[c].phase.Prepared?
    && i < |w.store.rows| && w.store.rows[i].digest == w.clients[c].presented && w.store.rows[i].consumedAt.Some?
    && w.store.rows[i].family in w.store.families
    && var f := w.store.families[w.store.rows[i].family]; f.revokedAt.None? && w.clients[c].now < f.expiresAt
  }

  lemma ReplayEnds(lifetimes: Lifetimes, w: World, c: nat, i: nat)
    requires ChainInv(w.store) && AboutToReplay(w, c, i)
    ensures var w', family := Apply(lifetimes, w, Advance(c)), w.store.rows[i].family;
      && w'.clients[c].phase == Done(Some(Replayed(ChainLength(w.store.rows, family))))
      && w'.store.families[family].revokedAt == Some(w.clients[c].now)
      && w'.handouts == w.handouts
  {
    ReplayRevokesTheChain(w.store, RequestFor(lifetimes, w.clients[c]), i);
  }

  /** A replay ends its family then and there, with the length of the chain as the count, and hands out nothing. */
  lemma ReplayEndsTheFamily(lifetimes: Lifetimes, steps: seq<Step>, c: nat, i: nat)
    requires AboutToReplay(After(lifetimes, steps), c, i)
    ensures var w, w' := After(lifetimes, steps), After(lifetimes, steps + [Advance(c)]);
      var family := w.store.rows[i].family;
      && w'.clients[c].phase == Done(Some(Replayed(ChainLength(w.store.rows, family))))
      && w'.store.families[family].revokedAt == Some(w.clients[c].now)
      && w'.handouts == w.handouts
  {
    InvHolds(lifetimes, steps);
    ReplayEnds(lifetimes, After(lifetimes, steps), c, i);
    AfterAppend(lifetimes, steps, Advance(c));
  }

  /** The steps one rotation takes when nothing interleaves with it, given what its ports do. */
  function SerialSteps(c: RotateCall, client: nat): seq<Step> {
    var token := Parsed(Refresh, c.presented);
    if c.admitted != Attempts.TokenRefresh || token.None? || !c.env.readUp then []
    else if c.env.tokenId.None? || c.env.secret.None? || c.env.signingError.Some? then
      [Read(client, Digest(token.value), c.now), PrepareFails(client)]
    else
      [Read(client, Digest(token.value), c.now),
       Prepare(client, c.env.tokenId.value, Opaque(Refresh, c.env.secret.value)),
       if c.env.writeUp then Advance(client) else AdvanceFails(client)]
  }

  /** The pair a rotation hands out, if it hands one out. */
  function HandedOut(s: Store, lifetimes: Lifetimes, c: RotateCall, client: nat): seq<Handout> {
    var answer := Rotation(s, lifetimes, c);
    if answer.Ok? && answer.value.Rotated? && PresentedGrant(s, c).Some? then
      var tokens := answer.value.tokens;
      [Handout(client, Digest(Parsed(Refresh, c.presented).value), Digest(tokens.refresh), tokens.family,
               tokens.access.user, tokens.access.scopes, c.now,
               TokenExpiry(c.now, lifetimes, PresentedGrant(s, c).value.familyExpiresAt))]
    else []
  }

  /** World `w'` is what the rotation makes of `w`, with the answer the rotation gives. */
  predicate Rotates(lifetimes: Lifetimes, w: World, w': World, c: RotateCall, client: nat) {
    && w'.store == AfterRotation(w.store, lifetimes, c)
    && w'.handouts == w.handouts + HandedOut(w.store, lifetimes, c, client)
    && (Stopped(w.store, c).None? ==>
          client in w'.clients
          && w'.clients[client].phase == Done(Some(Transition(w.store, RequestOf(w.store, lifetimes, c)))))
  }

  lemma StoppedRotates(lifetimes: Lifetimes, w: World, w': World, c: RotateCall, client: nat)
    requires Stopped(w.store, c).Some? && w'.store == w.store && w'.handouts == w.handouts
    ensures Rotates(lifetimes, w, w', c, client)
  {
  }

  lemma PreparedRotates(lifetimes: Lifetimes, w: World, c: RotateCall, client: nat)
    requires client !in w.clients && |SerialSteps(c, client)| == 3
    requires Digest(Opaque(Refresh, c.env.secret.value)) !in w.used
    ensures var serial := SerialSteps(c, client);
      var w' := Apply(lifetimes, Apply(lifetimes, Apply(lifetimes, w, serial[0]), serial[1]), serial[2]);
      Rotates(lifetimes, w, w', c, client)
  {
    var serial := SerialSteps(c, client);
    var read := Apply(lifetimes, w, serial[0]);
    var w' := Apply(lifetimes, Apply(lifetimes, read, serial[1]), serial[2]);
    if Stopped(w.store, c).Some? {
      StoppedRotates(lifetimes, w, w', c, client);
    }
  }

  /** A rotation run alone, whatever stops it, is a run of this protocol: same store, same pair handed out. */
  lemma RotateIsARun(lifetimes: Lifetimes, steps: seq<Step>, c: RotateCall, client: nat)
    requires client !in After(lifetimes, steps).clients
    requires c.env.secret.Some? ==> Digest(Opaque(Refresh, c.env.secret.value)) !in After(lifetimes, steps).used
    ensures Rotates(
      lifetimes, After(lifetimes, steps), After(lifetimes, steps + SerialSteps(c, client)), c, client)
  {
    var w, serial := After(lifetimes, steps), SerialSteps(c, client);
    if |serial| == 3 {
      AfterThree(lifetimes, steps, serial[0], serial[1], serial[2]);
      assert serial == [serial[0], serial[1], serial[2]];
      PreparedRotates(lifetimes, w, c, client);
    } else {
      if serial == [] {
        assert steps + serial == steps;
      } else {
        AfterTwo(lifetimes, steps, serial[0], serial[1]);
        assert serial == [serial[0], serial[1]];
      }
      StoppedRotates(lifetimes, w, After(lifetimes, steps + serial), c, client);
    }
  }

  lemma AfterTwo(lifetimes: Lifetimes, steps: seq<Step>, a: Step, b: Step)
    ensures After(lifetimes, steps + [a, b]) == Apply(lifetimes, Apply(lifetimes, After(lifetimes, steps), a), b)
  {
    var two := steps + [a, b];
    AfterAppend(lifetimes, steps, a);
    AfterLast(lifetimes, two, steps + [a], b);
  }

  lemma AfterThree(lifetimes: Lifetimes, steps: seq<Step>, a: Step, b: Step, c: Step)
    ensures After(lifetimes, steps + [a, b, c])
      == Apply(lifetimes, Apply(lifetimes, Apply(lifetimes, After(lifetimes, steps), a), b), c)
  {
    var three := steps + [a, b, c];
    AfterTwo(lifetimes, steps, a, b);
    AfterLast(lifetimes, three, steps + [a, b], c);
  }

  lemma AfterLast(lifetimes: Lifetimes, steps: seq<Step>, prefix: seq<Step>, last: Step)
    requires |steps| > 0 && steps[..|steps| - 1] == prefix && steps[|steps| - 1] == last
    ensures After(lifetimes, steps) == Apply(lifetimes, After(lifetimes, prefix), last)
  {
  }

  lemma AfterAppend(lifetimes: Lifetimes, steps: seq<Step>, step: Step)
    ensures After(lifetimes, steps + [step]) == Apply(lifetimes, After(lifetimes, steps), step)
  {
    assert (steps + [step])[..|steps|] == steps;
  }
}

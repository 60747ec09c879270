/**
 * The sharper reading of what registrations and resets in flight together may leave: not the password of the
 * operation that began last, but that of any operation that could have come last, in an order of the operations on
 * the account that agrees with real time and has the account registered before it is reset.
 */
module AccountOrders {
  import opened Wrappers
  import opened Accounts
  import opened AuthenticationService
  import opened AccountHistory
  import opened AccountProtocol

  /** `a` must come before `b`: it had finished when `b` began, or it made the account that `b` resets. */
  predicate Precedes(a: Op, b: Op) {
    a.ended < b.began || (a.kind.Registration? && b.kind.Reset?)
  }

  /** `order` lists the operations on the account, each once, and none after one it must precede. */
  ghost predicate Legal(order: seq<nat>, done: seq<Op>, owner: UserId) {
    && (forall a :: 0 <= a < |order| ==> order[a] < |done| && done[order[a]].owner == owner)
    && (forall k: nat :: k < |done| && done[k].owner == owner ==> k in order)
    && (forall a, b :: 0 <= a < b < |order| ==>
          order[a] != order[b] && !Precedes(done[order[b]], done[order[a]]))
  }

  /** Nothing on the account must come after operation `i`. */
  predicate MayBeLast(done: seq<Op>, i: nat)
    requires i < |done|
  {
    forall j :: 0 <= j < |done| && j != i && done[j].owner == done[i].owner ==> !Precedes(done[i], done[j])
  }

  /** The operations in this order leave the credential stored for the account, or none if there are none. */
  ghost predicate Leaves(p: Passwords, w: World, owner: UserId, order: seq<nat>) {
    var credential := CredentialOf(w.credentials, owner);
    if order == [] then credential.None?
    else
      && order[|order| - 1] < |w.done| && credential.Some?
      && HashFor(p, credential.value.hash, w.done[order[|order| - 1]].password)
  }

  ghost predicate ShowsSomeOrder(p: Passwords, w: World, owner: UserId) {
    exists order :: Legal(order, w.done, owner) && Leaves(p, w, owner, order)
  }

  // ---- What holds of the operations of every run -----------------------------------------------

  predicate OpInv(w: World, owner: UserId, kind: Kind, began: nat) {
    && owner in w.born && began < w.tickets
    && (if kind.Registration? then began == w.born[owner] else began > w.born[owner])
  }

  predicate DoneInv(w: World) {
    && (forall j :: 0 <= j < |w.done| ==>
          var a := w.done[j]; OpInv(w, a.owner, a.kind, a.began) && a.began < a.ended < w.tickets)
    && (forall j, k :: 0 <= j < k < |w.done| ==> w.done[j].ended < w.done[k].ended)
  }

  predicate OwedInv(w: World) {
    forall worker :: worker in w.owed ==>
      var s := w.owed[worker]; OpInv(w, s.owner, s.kind, s.ticket)
  }

  ghost predicate BornInv(w: World) {
    && (forall id :: id in w.born ==> w.born[id] < w.tickets)
    && (forall id: UserId :: id in w.born <==> 1 <= id <= |w.users|)
  }

  /** An account is registered once. */
  predicate OnceInv(w: World) {
    && (forall a, b :: a in w.owed && b in w.owed && a != b ==>
          !(w.owed[a].kind.Registration? && w.owed[b].kind.Registration? && w.owed[a].owner == w.owed[b].owner))
    && (forall a, j :: a in w.owed && 0 <= j < |w.done| ==>
          !(w.owed[a].kind.Registration? && w.done[j].kind.Registration? && w.owed[a].owner == w.done[j].owner))
  }

  predicate HasDone(done: seq<Op>, owner: UserId) {
    exists j :: 0 <= j < |done| && done[j].owner == owner
  }

  ghost predicate StoredInv(w: World) {
    forall owner: UserId :: CredentialOf(w.credentials, owner).Some? <==> HasDone(w.done, owner)
  }

  ghost predicate OrderInv(w: World) {
    DoneInv(w) && OwedInv(w) && BornInv(w) && OnceInv(w) && StoredInv(w)
  }

  lemma OwingKeepsOrder(
      p: Passwords, w: World, worker: nat, owner: UserId, password: string, salt: Salt)
    requires OrderInv(w) && owner in w.born && worker !in w.owed
    ensures OrderInv(Owing(p, w, worker, owner, Reset, password, salt))
  {
  }

  /** What a registration owes after its first call. */
  function Enrolled(p: Passwords, w: World, worker: nat, email: string, password: string, salt: Salt): World {
    Owing(p, Born(w, email), worker, NewUser(w.users, email).id, Registration, password, salt)
  }

  lemma EnrollingKeepsOps(p: Passwords, w: World, worker: nat, email: string, password: string, salt: Salt)
    requires DoneInv(w) && OwedInv(w) && BornInv(w)
    ensures var t := Enrolled(p, w, worker, email, password, salt); DoneInv(t) && OwedInv(t)
  {
    assert NewUser(w.users, email).id !in w.born;
  }

  lemma EnrollingKeepsOrder(p: Passwords, w: World, worker: nat, email: string, password: string, salt: Salt)
    requires OrderInv(w) && worker !in w.owed
    ensures OrderInv(Enrolled(p, w, worker, email, password, salt))
  {
    EnrollingKeepsOps(p, w, worker, email, password, salt);
    assert NewUser(w.users, email).id !in w.born;
  }

  lemma FinishingKeepsDone(w: World, worker: nat)
    requires OrderInv(w) && worker in w.owed
    ensures var t := Finished(w, worker); DoneInv(t) && OwedInv(t) && BornInv(t) && OnceInv(t)
  {
  }

  lemma OneMoreHasDone(done: seq<Op>, a: Op, owner: UserId)
    ensures HasDone(done + [a], owner) <==> HasDone(done, owner) || a.owner == owner
  {
    assert (done + [a])[|done|] == a;
    if j :| 0 <= j < |done| && done[j].owner == owner {
      assert (done + [a])[j] == done[j];
    }
  }

  lemma FinishingKeepsStored(w: World, worker: nat)
    requires StoredInv(w) && worker in w.owed
    ensures StoredInv(Finished(w, worker))
  {
    var s, t := w.owed[worker], Finished(w, worker);
    forall owner: UserId
      ensures CredentialOf(t.credentials, owner).Some? <==> HasDone(t.done, owner)
    {
      UpsertIsAMapUpdate(w.credentials, s.owner, s.hash, owner);
      OneMoreHasDone(w.done, t.done[|w.done|], owner);
    }
  }

  /** Only what is owed and what is done matters. */
  lemma OtherStepsKeepOrder(w: World, t: World)
    requires OrderInv(w) && t == w.(reset := t.reset, owed := t.owed) && t.owed.Keys <= w.owed.Keys
    requires forall worker :: worker in t.owed ==> t.owed[worker] == w.owed[worker]
    ensures OrderInv(t)
  {
  }

  lemma StepKeepsOrder(p: Passwords, w: World, step: Step)
    requires Inv(p, w) && OrderInv(w)
    ensures OrderInv(Apply(p, w, step))
  {
    match step
    case Enrol(worker, email, password, salt) =>
      if worker !in w.owed && Acceptable(p, password) && UserAt(w.users, email).None? {
        EnrollingKeepsOrder(p, w, worker, email, password, salt);
      }
    case Consume(worker, digest, password, salt, now) =>
      var i := ConsumableAt(w.reset, digest, now);
      if worker !in w.owed && i.Some? {
        var spent := w.(reset := ConsumedAt(w.reset, i.value, now));
        OtherStepsKeepOrder(w, spent);
        OwingKeepsOrder(p, spent, worker, w.reset[i.value].owner, password, salt);
      }
    case Finish(worker) =>
      if worker in w.owed {
        FinishingKeepsDone(w, worker);
        FinishingKeepsStored(w, worker);
      }
    case _ => OtherStepsKeepOrder(w, Apply(p, w, step));
  }

  lemma {:induction false} OrderHolds(p: Passwords, steps: seq<Step>)
    requires Ideal(p)
    ensures OrderInv(Run(p, NOBODY, steps))
  {
    if steps != [] {
      OrderHolds(p, steps[..|steps| - 1]);
      InvHolds(p, steps[..|steps| - 1]);
      StepKeepsOrder(p, Run(p, NOBODY, steps[..|steps| - 1]), steps[|steps| - 1]);
    }
  }

  // ---- A legal order ends in any operation that may be last ------------------------------------

  predicate IsOther(done: seq<Op>, owner: UserId, kind: Kind, i: nat, k: nat) {
    k < |done| && k != i && done[k].owner == owner && done[k].kind == kind
  }

  /** The operations of one kind on the account but `i`, among the first `n`, in the order they finished. */
  function Others(done: seq<Op>, owner: UserId, kind: Kind, i: nat, n: nat): (order: seq<nat>)
    requires n <= |done|
    ensures forall a :: 0 <= a < |order| ==> order[a] < n && IsOther(done, owner, kind, i, order[a])
    ensures forall a, b :: 0 <= a < b < |order| ==> order[a] < order[b]
  {
    if n == 0 then []
    else
      var before := Others(done, owner, kind, i, n - 1);
      if IsOther(done, owner, kind, i, n - 1) then before + [n - 1] else before
  }

  lemma {:induction false} OthersAreAll(done: seq<Op>, owner: UserId, kind: Kind, i: nat, n: nat, k: nat)
    requires k < n <= |done| && IsOther(done, owner, kind, i, k)
    ensures k in Others(done, owner, kind, i, n)
  {
    if k < n - 1 {
      OthersAreAll(done, owner, kind, i, n - 1, k);
    }
  }

  /** The registration, then the resets as they finished, and `i` at the end. */
  function EndingIn(done: seq<Op>, i: nat): seq<nat>
    requires i < |done|
  {
    var owner := done[i].owner;
    Others(done, owner, Registration, i, |done|) + Others(done, owner, Reset, i, |done|) + [i]
  }

  lemma EndingInHasAll(done: seq<Op>, i: nat, k: nat)
    requires i < |done| && k < |done| && done[k].owner == done[i].owner
    ensures k in EndingIn(done, i)
  {
    if k != i {
      OthersAreAll(done, done[i].owner, done[k].kind, i, |done|, k);
    }
  }

  /** Operations need not swap if they finished in this order, and a registration need not follow a reset. */
  lemma NeedNotSwap(w: World, j: nat, k: nat)
    requires DoneInv(w) && j < |w.done| && k < |w.done| && w.done[j].owner == w.done[k].owner
    requires if w.done[j].kind == w.done[k].kind then j < k else w.done[j].kind.Registration?
    ensures j != k && !Precedes(w.done[k], w.done[j])
  {
  }

  lemma EndingInNeedsNoSwap(w: World, i: nat, a: nat, b: nat)
    requires DoneInv(w) && i < |w.done| && MayBeLast(w.done, i) && a < b < |EndingIn(w.done, i)|
    ensures var order := EndingIn(w.done, i);
      && order[a] < |w.done| && order[b] < |w.done| && order[a] != order[b]
      && !Precedes(w.done[order[b]], w.done[order[a]])
  {
    var owner, order := w.done[i].owner, EndingIn(w.done, i);
    var r := Others(w.done, owner, Registration, i, |w.done|);
    var s := Others(w.done, owner, Reset, i, |w.done|);
    assert IsOther(w.done, owner, if a < |r| then Registration else Reset, i, order[a]);
    if b < |r| + |s| {
      assert IsOther(w.done, owner, if b < |r| then Registration else Reset, i, order[b]);
      NeedNotSwap(w, order[a], order[b]);
    }
  }

  lemma EndingInIsLegal(w: World, i: nat)
    requires DoneInv(w) && i < |w.done| && MayBeLast(w.done, i)
    ensures Legal(EndingIn(w.done, i), w.done, w.done[i].owner)
  {
    var order := EndingIn(w.done, i);
    forall k: nat | k < |w.done| && w.done[k].owner == w.done[i].owner
      ensures k in order
    {
      EndingInHasAll(w.done, i, k);
    }
    forall a, b | 0 <= a < b < |order|
      ensures order[a] != order[b] && !Precedes(w.done[order[b]], w.done[order[a]])
    {
      EndingInNeedsNoSwap(w, i, a, b);
    }
  }

  lemma LegalEndsInOneThatMay(done: seq<Op>, order: seq<nat>, owner: UserId)
    requires Legal(order, done, owner) && order != []
    ensures var i := order[|order| - 1]; i < |done| && done[i].owner == owner && MayBeLast(done, i)
  {
    var i := order[|order| - 1];
    forall j: nat | j < |done| && j != i && done[j].owner == owner
      ensures !Precedes(done[i], done[j])
    {
      var a :| 0 <= a < |order| && order[a] == j;
    }
  }

  /** An operation on the account may be last, and its password is the stored one. */
  ghost predicate LastIsShown(p: Passwords, w: World, owner: UserId, i: nat) {
    && i < |w.done| && w.done[i].owner == owner && MayBeLast(w.done, i)
    && CredentialOf(w.credentials, owner).Some?
    && HashFor(p, CredentialOf(w.credentials, owner).value.hash, w.done[i].password)
  }

  /** A legal order may end in any operation that may be last, and in no other. */
  lemma ShowsWhatMayBeLast(p: Passwords, w: World, owner: UserId)
    requires DoneInv(w) && HasDone(w.done, owner)
    ensures ShowsSomeOrder(p, w, owner) <==> exists i :: LastIsShown(p, w, owner, i)
  {
    if ShowsSomeOrder(p, w, owner) {
      var order :| Legal(order, w.done, owner) && Leaves(p, w, owner, order);
      var j :| 0 <= j < |w.done| && w.done[j].owner == owner;
      assert j in order;
      LegalEndsInOneThatMay(w.done, order, owner);
      assert LastIsShown(p, w, owner, order[|order| - 1]);
    }
    if i :| LastIsShown(p, w, owner, i) {
      EndingInIsLegal(w, i);
      assert Leaves(p, w, owner, EndingIn(w.done, i));
    }
  }

  /** The empty order is the only one while nothing is done. */
  lemma NothingDoneShows(p: Passwords, w: World, owner: UserId)
    requires StoredInv(w) && !HasDone(w.done, owner)
    ensures ShowsSomeOrder(p, w, owner)
  {
    assert Legal([], w.done, owner) && Leaves(p, w, owner, []);
  }

  // ---- Exactly when every run shows some order --------------------------------------------------

  /**
   * The step finishes a registration after a reset of the account it made has finished, with a password that is not
   * one of those that could have come last.
   */
  predicate Erases(p: Passwords, w: World, step: Step) {
    && step.Finish? && step.worker in w.owed && w.owed[step.worker].kind.Registration?
    && HasDone(w.done, w.owed[step.worker].owner)
    && forall j :: 0 <= j < |w.done| && w.done[j].owner == w.owed[step.worker].owner && MayBeLast(w.done, j) ==>
         p.normalise(w.done[j].password) != p.normalise(w.owed[step.worker].password)
  }

  /** Finishing an operation takes from an earlier one the chance to be last only if that one must precede it. */
  lemma OneMoreDone(done: seq<Op>, a: Op, i: nat)
    requires i < |done|
    ensures MayBeLast(done + [a], i) <==> MayBeLast(done, i) && (a.owner == done[i].owner ==> !Precedes(done[i], a))
  {
    var more := done + [a];
    assert forall j :: 0 <= j < |done| ==> more[j] == done[j];
    if MayBeLast(more, i) {
      assert more[|done|] == a;
      forall j | 0 <= j < |done| && j != i && done[j].owner == done[i].owner
        ensures !Precedes(done[i], done[j])
      {
        assert more[j] == done[j];
      }
    }
  }

  /** What finishes last may come last, unless it is a registration and the account has been reset. */
  lemma FinisherMayBeLast(w: World, worker: nat)
    requires DoneInv(w) && OwedInv(w) && OnceInv(w) && worker in w.owed
    ensures var s, t := w.owed[worker], Finished(w, worker);
      MayBeLast(t.done, |w.done|) <==>
        (s.kind.Reset? || !HasDone(w.done, s.owner))
  {
    var s, t, n := w.owed[worker], Finished(w, worker), |w.done|;
    assert forall j :: 0 <= j < n ==> t.done[j] == w.done[j];
    if s.kind.Registration? && HasDone(w.done, s.owner) {
      var j :| 0 <= j < n && w.done[j].owner == s.owner;
      assert Precedes(t.done[n], t.done[j]);
    }
  }

  /** The resets that could come last before a registration finishes are those that could after. */
  lemma ResetsMayBeLastAlike(w: World, worker: nat, i: nat)
    requires DoneInv(w) && OwedInv(w) && OnceInv(w) && worker in w.owed && w.owed[worker].kind.Registration?
    requires i < |w.done| && w.done[i].owner == w.owed[worker].owner
    ensures MayBeLast(Finished(w, worker).done, i) <==> MayBeLast(w.done, i)
  {
    OneMoreDone(w.done, Finished(w, worker).done[|w.done|], i);
  }

  lemma ResetIsShownExactly(p: Passwords, w: World, worker: nat, i: nat)
    requires Inv(p, w) && OrderInv(w) && worker in w.owed && w.owed[worker].kind.Registration?
    requires i < |w.done| && w.done[i].owner == w.owed[worker].owner
    ensures var s := w.owed[worker];
      LastIsShown(p, Finished(w, worker), s.owner, i) <==>
        MayBeLast(w.done, i) && p.normalise(w.done[i].password) == p.normalise(s.password)
  {
    var s := w.owed[worker];
    assert AccountProtocol.OwedInv(p, w, worker);
    UpsertIsAMapUpdate(w.credentials, s.owner, s.hash, s.owner);
    ResetsMayBeLastAlike(w, worker, i);
    HashesOfOnePassword(p, s.hash, s.password, w.done[i].password);
  }

  lemma ResetsAreShownExactly(p: Passwords, w: World, worker: nat)
    requires Inv(p, w) && OrderInv(w) && worker in w.owed && !MayBeLast(Finished(w, worker).done, |w.done|)
    requires w.owed[worker].kind.Registration? && HasDone(w.done, w.owed[worker].owner)
    ensures (exists i :: LastIsShown(p, Finished(w, worker), w.owed[worker].owner, i)) <==>
              !Erases(p, w, Finish(worker))
  {
    var s, t := w.owed[worker], Finished(w, worker);
    forall i: nat | i < |w.done| && w.done[i].owner == s.owner
      ensures LastIsShown(p, t, s.owner, i) <==>
        MayBeLast(w.done, i) && p.normalise(w.done[i].password) == p.normalise(s.password)
    {
      ResetIsShownExactly(p, w, worker, i);
    }
  }

  lemma FinisherIsShown(p: Passwords, w: World, worker: nat)
    requires Inv(p, w) && worker in w.owed && MayBeLast(Finished(w, worker).done, |w.done|)
    ensures LastIsShown(p, Finished(w, worker), w.owed[worker].owner, |w.done|)
  {
    var s := w.owed[worker];
    assert AccountProtocol.OwedInv(p, w, worker);
    UpsertIsAMapUpdate(w.credentials, s.owner, s.hash, s.owner);
  }

  lemma FinisherShowsExactly(p: Passwords, w: World, worker: nat)
    requires Inv(p, w) && OrderInv(w) && worker in w.owed
    ensures ShowsSomeOrder(p, Finished(w, worker), w.owed[worker].owner) <==> !Erases(p, w, Finish(worker))
  {
    var s, t, n := w.owed[worker], Finished(w, worker), |w.done|;
    FinishingKeepsDone(w, worker);
    OneMoreHasDone(w.done, t.done[n], s.owner);
    ShowsWhatMayBeLast(p, t, s.owner);
    FinisherMayBeLast(w, worker);
    if MayBeLast(t.done, n) {
      FinisherIsShown(p, w, worker);
    } else {
      ResetsAreShownExactly(p, w, worker);
    }
  }

  /** What other accounts show does not change. */
  lemma OthersShowAlike(p: Passwords, w: World, worker: nat, owner: UserId)
    requires OrderInv(w) && worker in w.owed && w.owed[worker].owner != owner && ShowsSomeOrder(p, w, owner)
    ensures ShowsSomeOrder(p, Finished(w, worker), owner)
  {
    var s, t := w.owed[worker], Finished(w, worker);
    UpsertIsAMapUpdate(w.credentials, s.owner, s.hash, owner);
    var order :| Legal(order, w.done, owner) && Leaves(p, w, owner, order);
    assert t.done[..|w.done|] == w.done;
    assert Legal(order, t.done, owner) && Leaves(p, t, owner, order);
  }

  ghost predicate AllShowSomeOrder(p: Passwords, w: World) {
    forall owner: UserId :: ShowsSomeOrder(p, w, owner)
  }

  lemma StepShowsExactly(p: Passwords, w: World, step: Step)
    requires Inv(p, w) && OrderInv(w) && AllShowSomeOrder(p, w)
    ensures AllShowSomeOrder(p, Apply(p, w, step)) <==> !Erases(p, w, step)
  {
    if step.Finish? && step.worker in w.owed {
      FinisherShowsExactly(p, w, step.worker);
      forall owner: UserId | owner != w.owed[step.worker].owner
        ensures ShowsSomeOrder(p, Finished(w, step.worker), owner)
      {
        OthersShowAlike(p, w, step.worker, owner);
      }
    } else {
      forall owner: UserId
        ensures ShowsSomeOrder(p, Apply(p, w, step), owner) <==> ShowsSomeOrder(p, w, owner)
      {
        NothingFinished(p, w, step);
      }
    }
  }

  lemma NothingFinished(p: Passwords, w: World, step: Step)
    requires !(step.Finish? && step.worker in w.owed)
    ensures Apply(p, w, step).credentials == w.credentials && Apply(p, w, step).done == w.done
  {
  }

  lemma ShowsNext(p: Passwords, steps: seq<Step>, n: nat)
    requires Ideal(p) && n < |steps| && AllShowSomeOrder(p, Run(p, NOBODY, steps[..n]))
    ensures AllShowSomeOrder(p, Run(p, NOBODY, steps[..n + 1])) <==>
      !Erases(p, Run(p, NOBODY, steps[..n]), steps[n])
  {
    InvHolds(p, steps[..n]);
    OrderHolds(p, steps[..n]);
    RunNext(p, steps, n);
    StepShowsExactly(p, Run(p, NOBODY, steps[..n]), steps[n]);
  }

  ghost predicate ShowsSomeOrderThroughout(p: Passwords, steps: seq<Step>) {
    forall n :: 0 <= n <= |steps| ==> AllShowSomeOrder(p, Run(p, NOBODY, steps[..n]))
  }

  predicate NothingErased(p: Passwords, steps: seq<Step>) {
    forall n :: 0 <= n < |steps| ==> !Erases(p, Run(p, NOBODY, steps[..n]), steps[n])
  }

  lemma NobodyShows(p: Passwords, steps: seq<Step>)
    requires steps == []
    ensures AllShowSomeOrder(p, Run(p, NOBODY, steps))
  {
    forall owner: UserId
      ensures ShowsSomeOrder(p, NOBODY, owner)
    {
      NothingDoneShows(p, NOBODY, owner);
    }
  }

  lemma {:induction false} ShowsUpTo(p: Passwords, steps: seq<Step>, n: nat)
    requires Ideal(p) && NothingErased(p, steps) && n <= |steps|
    ensures AllShowSomeOrder(p, Run(p, NOBODY, steps[..n]))
  {
    if n == 0 {
      NobodyShows(p, steps[..0]);
    } else {
      ShowsUpTo(p, steps, n - 1);
      ShowsNext(p, steps, n - 1);
    }
  }

  /**
   * At every point of a run, every account's credential is what some legal order of the operations on it leaves,
   * exactly when no registration finishes, with a password none of them could have left last, after a reset of its
   * account has.
   */
  lemma SomeOrderIsShownExactly(p: Passwords, steps: seq<Step>)
    requires Ideal(p)
    ensures ShowsSomeOrderThroughout(p, steps) <==> NothingErased(p, steps)
  {
    if ShowsSomeOrderThroughout(p, steps) {
      forall n | 0 <= n < |steps|
        ensures !Erases(p, Run(p, NOBODY, steps[..n]), steps[n])
      {
        ShowsNext(p, steps, n);
      }
    }
    if NothingErased(p, steps) {
      forall n | 0 <= n <= |steps|
        ensures AllShowSomeOrder(p, Run(p, NOBODY, steps[..n]))
      {
        ShowsUpTo(p, steps, n);
      }
    }
  }

  /** A login succeeds exactly when its ports answer and the password is that of the last operation in the order. */
  predicate LoginFollowsTheOrder(
      p: Passwords, w: World, order: seq<nat>, email: string, password: string, absent: Option<UserId>, up: nat)
    requires order != [] ==> order[|order| - 1] < |w.done|
  {
    LogInWith(p, w.users, w.credentials, email, password, absent, up).Ok? <==>
      && up >= 2 && absent.Some? && order != []
      && p.normalise(password) == p.normalise(w.done[order[|order| - 1]].password)
  }

  lemma LoginReadsTheOrder(
      p: Passwords, w: World, order: seq<nat>, email: string, password: string, absent: Option<UserId>, up: nat)
    requires Inv(p, w) && UserAt(w.users, email).Some? && Leaves(p, w, UserAt(w.users, email).value + 1, order)
    ensures LoginFollowsTheOrder(p, w, order, email, password, absent, up)
  {
    assert w.users[UserAt(w.users, email).value].id == UserAt(w.users, email).value + 1;
  }

  /** After any run in which nothing was erased, all logins to an account follow one legal order of its operations. */
  lemma LoginsAfterTheRun(p: Passwords, steps: seq<Step>, email: string) returns (order: seq<nat>)
    requires Ideal(p) && NothingErased(p, steps) && UserAt(Run(p, NOBODY, steps).users, email).Some?
    ensures Legal(order, Run(p, NOBODY, steps).done, UserAt(Run(p, NOBODY, steps).users, email).value + 1)
    ensures forall password, absent, up: nat ::
              LoginFollowsTheOrder(p, Run(p, NOBODY, steps), order, email, password, absent, up)
  {
    var w := Run(p, NOBODY, steps);
    var owner := UserAt(w.users, email).value + 1;
    InvHolds(p, steps);
    ShowsUpTo(p, steps, |steps|);
    assert steps[..|steps|] == steps && ShowsSomeOrder(p, w, owner);
    order :| Legal(order, w.done, owner) && Leaves(p, w, owner, order);
    forall password, absent, up: nat
      ensures LoginFollowsTheOrder(p, w, order, email, password, absent, up)
    {
      LoginReadsTheOrder(p, w, order, email, password, absent, up);
    }
  }
}

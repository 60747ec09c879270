/** What prune calls, running beside the admissions at any instants of their own, can and cannot change. */
module AdmitPruning {
  import opened Wrappers
  import opened Attempts
  import opened AttemptLimits
  import opened AttemptStore
  import opened AttemptKeyring
  import opened AttemptLog
  import opened AbuseGuard
  import opened AdmitProtocol

  // ---- How far ahead pruning may run -----------------------------------------------------------

  /** A run without prune calls is prompt: then the guarantee needs nothing of its callers. */
  lemma {:induction false} RunsWithoutSweepsArePrompt(
      g: Guard, steps: seq<Step>, dimension: AttemptDimension, lead: int)
    requires forall step :: step in steps ==> !step.Sweep?
    ensures Prompt(g, steps, dimension, lead) && After(g, steps).horizons == map[]
  {
    if steps != [] {
      RunsWithoutSweepsArePrompt(g, steps[..|steps| - 1], dimension, lead);
    }
  }

  lemma PromptStep(g: Guard, steps: seq<Step>, step: Step, dimension: AttemptDimension, lead: int)
    returns (more: seq<Step>)
    requires Prompt(g, steps, dimension, lead) && StepIsPrompt(After(g, steps), step, dimension, lead)
    ensures more == steps + [step] && Prompt(g, more, dimension, lead)
    ensures After(g, more) == Apply(g, After(g, steps), step)
  {
    more := steps + [step];
    assert more[..|steps|] == steps;
  }

  /** The calls a run is built of: their flow and keys, and the instant of the next one. */
  datatype Visit = Visit(flow: AttemptFlow, keys: FlowKeys, now: int)

  /** The dimension is one the call counts, and the call has every key it needs. */
  predicate Counts(a: Visit, dimension: AttemptDimension) {
    dimension in Dimensions(a.flow) && KeysPresent(a.flow, a.keys)
  }

  function FlowOf(dimension: AttemptDimension): AttemptFlow {
    match dimension
    case RegisterAccount => Register
    case RegisterNetwork => Register
    case LogInAccount => LogIn
    case LogInNetwork => LogIn
    case VerificationResendAccount => VerificationResend
    case VerificationResendNetwork => VerificationResend
    case VerificationCompleteNetwork => VerificationComplete
    case ForgotPasswordAccount => ForgotPassword
    case ForgotPasswordNetwork => ForgotPassword
    case ResetPasswordNetwork => ResetPassword
    case TokenRefreshClient => TokenRefresh
    case TokenRefreshNetwork => TokenRefresh
  }

  /** Every dimension is counted by some call that has all its keys. */
  function VisitTo(dimension: AttemptDimension, now: int): (a: Visit)
    ensures Counts(a, dimension) && a.now == now
  {
    Visit(FlowOf(dimension), FlowKeys(Some(""), Some(seq(16, _ => 0)), V4([0, 0, 0, 0])), now)
  }

  /** The call with nothing failing in it. */
  function CallOf(a: Visit): AdmitCall {
    AdmitCall(a.flow, a.keys, 0, a.now, {}, true)
  }

  // A call that counts two dimensions is refused if the other one refuses it. The builder below has the row of
  // every other dimension pruned before each call, which no condition on this dimension forbids.

  /** A prune call that covers one bucket deletes that row, if it has expired by then, and no other. */
  lemma SweepOne(g: Guard, w: World, key: RowKey, at: int)
    requires key in w.table ==> w.table[key].expiresAt <= at
    ensures var w' := Apply(g, w, Sweep(key.dimension, key.bucket, 1, at));
      && w'.table == w.table - {key} && w'.calls == w.calls
      && w'.horizons == Later(w.horizons, key.dimension, at)
  {
  }

  /** What clearing the rows of other dimensions leaves: the calls, and all that concerns `dimension`. */
  ghost predicate LeavesAlone(w: World, w': World, dimension: AttemptDimension) {
    && w'.calls == w.calls && Lookup(w'.horizons, dimension) == Lookup(w.horizons, dimension)
    && forall key: RowKey :: key.dimension == dimension ==> Lookup(w'.table, key) == Lookup(w.table, key)
  }

  /** The rows of the first `n` dimensions of the call, other than `dimension`, are gone. */
  predicate Cleared(g: Guard, w: World, a: Visit, dimension: AttemptDimension, n: nat)
    requires Counts(a, dimension) && n <= |Dimensions(a.flow)|
  {
    forall i :: 0 <= i < n && Dimensions(a.flow)[i] != dimension ==>
      RowFor(g, Dimensions(a.flow)[i], a.keys) !in w.table
  }

  lemma LeftAloneTwice(u: World, v: World, w: World, dimension: AttemptDimension)
    requires LeavesAlone(u, v, dimension) && LeavesAlone(v, w, dimension)
    ensures LeavesAlone(u, w, dimension)
  {
  }

  lemma ClearOne(g: Guard, w: World, key: RowKey, at: int, dimension: AttemptDimension)
    requires key.dimension != dimension && (key in w.table ==> w.table[key].expiresAt <= at)
    ensures var w' := Apply(g, w, Sweep(key.dimension, key.bucket, 1, at));
      LeavesAlone(w, w', dimension) && key !in w'.table && w'.table.Keys <= w.table.Keys
  {
    SweepOne(g, w, key, at);
  }

  lemma ClearNext(g: Guard, steps: seq<Step>, a: Visit, dimension: AttemptDimension, lead: int, n: nat)
    returns (more: seq<Step>)
    requires Prompt(g, steps, dimension, lead) && Counts(a, dimension) && 1 <= n <= |Dimensions(a.flow)|
    requires Cleared(g, After(g, steps), a, dimension, n - 1)
    ensures Prompt(g, more, dimension, lead) && LeavesAlone(After(g, steps), After(g, more), dimension)
    ensures Cleared(g, After(g, more), a, dimension, n)
  {
    var w, key := After(g, steps), RowFor(g, Dimensions(a.flow)[n - 1], a.keys);
    more := steps;
    if key.dimension != dimension {
      var at := if key in w.table then w.table[key].expiresAt else 0;
      ClearOne(g, w, key, at, dimension);
      more := PromptStep(g, steps, Sweep(key.dimension, key.bucket, 1, at), dimension, lead);
    }
  }

  lemma {:induction false} ClearOthers(
      g: Guard, steps: seq<Step>, a: Visit, dimension: AttemptDimension, lead: int, n: nat)
    returns (more: seq<Step>)
    requires Prompt(g, steps, dimension, lead) && Counts(a, dimension) && n <= |Dimensions(a.flow)|
    ensures Prompt(g, more, dimension, lead) && LeavesAlone(After(g, steps), After(g, more), dimension)
    ensures Cleared(g, After(g, more), a, dimension, n)
  {
    if n == 0 {
      more := steps;
    } else {
      var fewer := ClearOthers(g, steps, a, dimension, lead, n - 1);
      more := ClearNext(g, fewer, a, dimension, lead, n);
      LeftAloneTwice(After(g, steps), After(g, fewer), After(g, more), dimension);
    }
  }

  /** The first attempt on a row is always let through. */
  lemma FreshRowLets(g: Guard, table: Table, dimension: AttemptDimension, keys: FlowKeys, now: int)
    requires KeyFor(dimension, keys).Some? && RowFor(g, dimension, keys) !in table
    ensures !Refuses(g, dimension, OutcomeOf(table, ObservationFor(g, dimension, keys, now)), now)
  {
    ChargeBounds(g.contract(dimension), AttemptState(1, 0, WindowStart(g.contract(dimension), now)), now);
  }

  /** With the other rows cleared, the call's answer is its dimension's, and so is what it leaves of its row. */
  lemma ClearedCallIsServed(g: Guard, w: World, a: Visit, dimension: AttemptDimension)
    requires Counts(a, dimension) && Cleared(g, w, a, dimension, |Dimensions(a.flow)|)
    requires !Refuses(g, dimension, OutcomeOf(w.table, ObservationFor(g, dimension, a.keys, a.now)), a.now)
    ensures Answer(g, w.table, CallOf(a)) == Ok(a.flow)
    ensures var o := ObservationFor(g, dimension, a.keys, a.now);
      Lookup(TableAfterCall(g, w.table, CallOf(a)), o.key) == Lookup(AfterObserve(w.table, o), o.key)
  {
    var n := |Dimensions(a.flow)|;
    ReachIs({}, n, n);
    forall i | 0 <= i < n
      ensures !RefusesAlone(g, w.table, a.flow, a.keys, a.now, i)
    {
      if Dimensions(a.flow)[i] != dimension {
        FreshRowLets(g, w.table, Dimensions(a.flow)[i], a.keys, a.now);
      }
    }
    RefusalIsTheDisjunction(g, w.table, a.flow, a.keys, a.now, n);
    DimensionsAreCountedIndependently(g, w.table, a.flow, a.keys, a.now, n);
    var i :| 0 <= i < n && Dimensions(a.flow)[i] == dimension;
  }

  /** `w'` is `w` but for what call `id` has been told and how it ended, and for the table and the sink. */
  predicate Touches(w: World, w': World, id: nat) {
    && w'.horizons == w.horizons && w'.calls.Keys == w.calls.Keys && id in w.calls
    && (forall k :: k in w.calls && k != id ==> w'.calls[k] == w.calls[k])
    && w'.calls[id].flow == w.calls[id].flow && w'.calls[id].keys == w.calls[id].keys
    && w'.calls[id].now == w.calls[id].now
  }

  lemma StepTouches(g: Guard, w: World, id: nat, step: Step)
    requires id in w.calls && (step == Observe(id) || step == Record(id))
    ensures Touches(w, Apply(g, w, step), id)
  {
  }

  lemma TouchesIsTransitive(u: World, v: World, w: World, id: nat)
    requires Touches(u, v, id) && Touches(v, w, id)
    ensures Touches(u, w, id)
  {
  }

  lemma {:induction false} PromptObserves(
      g: Guard, steps: seq<Step>, id: nat, n: nat, dimension: AttemptDimension, lead: int)
    returns (more: seq<Step>)
    requires Prompt(g, steps, dimension, lead) && id in After(g, steps).calls
    requires !Overtakes(Lookup(After(g, steps).horizons, dimension), After(g, steps).calls[id].now, lead)
    ensures more == steps + Observes(id, n) && Prompt(g, more, dimension, lead)
    ensures Touches(After(g, steps), After(g, more), id)
  {
    if n == 0 {
      more := steps;
    } else {
      var fewer := PromptObserves(g, steps, id, n - 1, dimension, lead);
      more := PromptStep(g, fewer, Observe(id), dimension, lead);
      StepTouches(g, After(g, fewer), id, Observe(id));
      TouchesIsTransitive(After(g, steps), After(g, fewer), After(g, more), id);
    }
  }

  lemma StepsOfCall(a: Visit, id: nat)
    requires KeysPresent(a.flow, a.keys)
    ensures SerialSteps(CallOf(a), id)
      == [StartOf(CallOf(a), id)] + Observes(id, |Dimensions(a.flow)|) + [Record(id)]
  {
    ReachIs({}, |Dimensions(a.flow)|, |Dimensions(a.flow)|);
  }

  /** The whole call, as a run: prompt, and touching no other call and no horizon. */
  lemma PromptCall(g: Guard, steps: seq<Step>, a: Visit, id: nat, dimension: AttemptDimension, lead: int)
    returns (more: seq<Step>)
    requires Prompt(g, steps, dimension, lead) && KeysPresent(a.flow, a.keys) && id !in After(g, steps).calls
    requires !Overtakes(Lookup(After(g, steps).horizons, dimension), a.now, lead)
    ensures more == steps + SerialSteps(CallOf(a), id) && Prompt(g, more, dimension, lead)
    ensures Touches(Apply(g, After(g, steps), StartOf(CallOf(a), id)), After(g, more), id)
  {
    var begun := PromptStep(g, steps, StartOf(CallOf(a), id), dimension, lead);
    var counted := PromptObserves(g, begun, id, |Dimensions(a.flow)|, dimension, lead);
    more := PromptStep(g, counted, Record(id), dimension, lead);
    StepTouches(g, After(g, counted), id, Record(id));
    TouchesIsTransitive(After(g, begun), After(g, counted), After(g, more), id);
    StepsOfCall(a, id);
    Appended(steps, [StartOf(CallOf(a), id)], Observes(id, |Dimensions(a.flow)|), [Record(id)]);
  }

  lemma Appended(steps: seq<Step>, a: seq<Step>, b: seq<Step>, c: seq<Step>)
    ensures steps + a + b + c == steps + (a + b + c)
  {
  }

  function FirstIds(n: nat): (ids: set<nat>)
    ensures |ids| == n && forall i: nat :: i in ids <==> i < n
  {
    if n == 0 then {} else FirstIds(n - 1) + {n - 1}
  }

  /** The run holds `n` calls of `a`'s kind, each admitted at an instant in `[from, to)`, and no others. */
  ghost predicate AllPassed(w: World, a: Visit, from: int, to: int, n: nat) {
    && (forall id: nat :: id in w.calls <==> id < n)
    && forall id :: id in w.calls ==>
         && w.calls[id].status == Admitted && w.calls[id].flow == a.flow
         && w.calls[id].keys == a.keys && from <= w.calls[id].now < to
  }

  lemma OneMorePasses(g: Guard, w: World, w': World, a: Visit, from: int, to: int, n: nat)
    requires AllPassed(w, a, from, to, n) && from <= a.now < to
    requires Touches(Apply(g, w, StartOf(CallOf(a), n)), w', n) && w'.calls[n].status == Admitted
    ensures AllPassed(w', a, from, to, n + 1)
  {
  }

  /** The row of `o` as `n` counts in its window, and none before, leave it. */
  predicate Stands(w: World, o: AttemptStore.Observation, n: nat) {
    Lookup(w.table, o.key) == if n == 0 then None else Some(Row(AttemptState(n, 0, o.windowStart), o.expiresAt))
  }

  /** Up to the limit, the next call finds the row in the current window and is let through. */
  lemma NextIsLet(g: Guard, w: World, a: Visit, dimension: AttemptDimension, m: nat)
    requires Counts(a, dimension) && m < g.contract(dimension).limit
    requires Stands(w, ObservationFor(g, dimension, a.keys, a.now), m)
    ensures var o := ObservationFor(g, dimension, a.keys, a.now);
      OutcomeOf(w.table, o) == Counted(AttemptState(m + 1, 0, o.windowStart))
      && !Refuses(g, dimension, OutcomeOf(w.table, o), a.now)
  {
    var o := ObservationFor(g, dimension, a.keys, a.now);
    ChargeBounds(g.contract(dimension), AttemptState(m + 1, 0, o.windowStart), a.now);
  }

  /** Where a run is built: what it counts, how far ahead its prune calls may run, and the span it fills. */
  datatype Plan = Plan(dimension: AttemptDimension, lead: int, from: int, to: int)

  /** A prompt run of `n` such calls, all admitted in the span, whose row now holds `m` of them. */
  ghost predicate Filled(g: Guard, steps: seq<Step>, a: Visit, p: Plan, n: nat, m: nat) {
    && Counts(a, p.dimension) && Prompt(g, steps, p.dimension, p.lead)
    && AllPassed(After(g, steps), a, p.from, p.to, n)
    && Stands(After(g, steps), ObservationFor(g, p.dimension, a.keys, a.now), m)
  }

  lemma NoCalls(g: Guard, a: Visit, p: Plan) returns (steps: seq<Step>)
    requires Counts(a, p.dimension)
    ensures Filled(g, steps, a, p, 0, 0) && After(g, steps).horizons == map[]
  {
    steps := [];
  }

  /** How far pruning of the run's own dimension has got. */
  function HorizonOf(g: Guard, steps: seq<Step>, p: Plan): Option<int> {
    Lookup(After(g, steps).horizons, p.dimension)
  }

  /** One more is admitted while the row holds fewer than the limit. */
  lemma OneMoreCall(g: Guard, before: seq<Step>, a: Visit, p: Plan, had: nat, held: nat, n: nat, m: nat)
    returns (steps: seq<Step>)
    requires n == had + 1 && m == held + 1 && m <= g.contract(p.dimension).limit
    requires Filled(g, before, a, p, had, held) && p.from <= a.now < p.to
    requires !Overtakes(HorizonOf(g, before, p), a.now, p.lead)
    ensures Filled(g, steps, a, p, n, m) && HorizonOf(g, steps, p) == HorizonOf(g, before, p)
  {
    var cleared := ClearForCall(g, before, a, p, had, held);
    steps := PromptCall(g, cleared, a, had, p.dimension, p.lead);
    AdmitIsARun(g, cleared, CallOf(a), had);
    CallIsFilled(g, After(g, cleared), After(g, steps), a, p, had, held, n, m);
  }

  lemma ClearForCall(g: Guard, before: seq<Step>, a: Visit, p: Plan, had: nat, held: nat)
    returns (cleared: seq<Step>)
    requires Filled(g, before, a, p, had, held)
    ensures Filled(g, cleared, a, p, had, held) && HorizonOf(g, cleared, p) == HorizonOf(g, before, p)
    ensures Cleared(g, After(g, cleared), a, p.dimension, |Dimensions(a.flow)|)
  {
    cleared := ClearOthers(g, before, a, p.dimension, p.lead, |Dimensions(a.flow)|);
    StandsAlone(g, After(g, before), After(g, cleared), a, p.dimension, held);
  }

  lemma CallIsFilled(g: Guard, w: World, w': World, a: Visit, p: Plan, had: nat, held: nat, n: nat, m: nat)
    requires n == had + 1 && m == held + 1
    requires Counts(a, p.dimension) && Cleared(g, w, a, p.dimension, |Dimensions(a.flow)|)
    requires held < g.contract(p.dimension).limit && p.from <= a.now < p.to
    requires AllPassed(w, a, p.from, p.to, had) && Stands(w, ObservationFor(g, p.dimension, a.keys, a.now), held)
    requires Touches(Apply(g, w, StartOf(CallOf(a), had)), w', had) && Performs(g, w, w', CallOf(a), had)
    ensures AllPassed(w', a, p.from, p.to, n)
    ensures Stands(w', ObservationFor(g, p.dimension, a.keys, a.now), m)
  {
    NextIsLet(g, w, a, p.dimension, held);
    ClearedCallIsServed(g, w, a, p.dimension);
    OneMorePasses(g, w, w', a, p.from, p.to, had);
    StandsNext(g, w, w', a, p.dimension, held);
  }

  lemma StandsAlone(g: Guard, w: World, w': World, a: Visit, dimension: AttemptDimension, held: nat)
    requires Counts(a, dimension) && LeavesAlone(w, w', dimension)
    requires Stands(w, ObservationFor(g, dimension, a.keys, a.now), held)
    ensures Stands(w', ObservationFor(g, dimension, a.keys, a.now), held)
  {
  }

  lemma StandsNext(g: Guard, w: World, w': World, a: Visit, dimension: AttemptDimension, held: nat)
    requires Counts(a, dimension) && held < g.contract(dimension).limit
    requires var o := ObservationFor(g, dimension, a.keys, a.now);
      Stands(w, o, held) && Lookup(w'.table, o.key) == Lookup(AfterObserve(w.table, o), o.key)
    ensures Stands(w', ObservationFor(g, dimension, a.keys, a.now), held + 1)
  {
    NextIsLet(g, w, a, dimension, held);
  }

  lemma NoMoreCalls(g: Guard, before: seq<Step>, a: Visit, p: Plan, had: nat, n: nat, m: nat)
    returns (steps: seq<Step>)
    requires Filled(g, before, a, p, had, 0) && n == had && m == 0
    ensures Filled(g, steps, a, p, n, m) && HorizonOf(g, steps, p) == HorizonOf(g, before, p)
  {
    steps := before;
  }

  /** `m` calls at one instant, one after the other, on a row that does not exist: up to the limit, all are admitted. */
  lemma {:induction false} ManyCalls(g: Guard, before: seq<Step>, a: Visit, p: Plan, had: nat, n: nat, m: nat)
    returns (steps: seq<Step>)
    requires n == had + m && m <= g.contract(p.dimension).limit && p.from <= a.now < p.to
    requires Filled(g, before, a, p, had, 0) && !Overtakes(HorizonOf(g, before, p), a.now, p.lead)
    ensures Filled(g, steps, a, p, n, m) && HorizonOf(g, steps, p) == HorizonOf(g, before, p)
  {
    if m == 0 {
      steps := NoMoreCalls(g, before, a, p, had, n, m);
    } else {
      var fewer := ManyCalls(g, before, a, p, had, n - 1, m - 1);
      steps := OneMoreCall(g, fewer, a, p, n - 1, m - 1, n, m);
    }
  }

  /** A prune call deletes the row once its expiry has passed; a call at `later` then finds none. */
  lemma SweepForgets(g: Guard, before: seq<Step>, a: Visit, p: Plan, n: nat, m: nat, at: int, later: int)
    returns (steps: seq<Step>)
    requires Filled(g, before, a, p, n, m) && ObservationFor(g, p.dimension, a.keys, a.now).expiresAt <= at
    requires HorizonOf(g, before, p).Some? ==> HorizonOf(g, before, p).value <= at
    ensures Filled(g, steps, a.(now := later), p, n, 0) && HorizonOf(g, steps, p) == Some(at)
  {
    var key := RowFor(g, p.dimension, a.keys);
    SweepOne(g, After(g, before), key, at);
    steps := PromptStep(g, before, Sweep(key.dimension, key.bucket, 1, at), p.dimension, p.lead);
  }

  /** The limit is filled at the end of window 0, and the row is then deleted as early as a prune call can. */
  lemma FillAndSweep(g: Guard, before: seq<Step>, a: Visit, p: Plan, had: nat, n: nat, later: int)
    returns (steps: seq<Step>)
    requires var l := g.contract(p.dimension);
      && n == had + l.limit && a.now == l.window - 1
      && (HorizonOf(g, before, p).Some? ==> HorizonOf(g, before, p).value <= 2 * l.window)
    requires Filled(g, before, a, p, had, 0) && p.from <= a.now < p.to
    requires !Overtakes(HorizonOf(g, before, p), a.now, p.lead)
    ensures Filled(g, steps, a.(now := later), p, n, 0)
    ensures HorizonOf(g, steps, p) == Some(2 * g.contract(p.dimension).window)
  {
    var l := g.contract(p.dimension);
    WindowStartIsTheFloor(l, a.now, 0);
    var full := ManyCalls(g, before, a, p, had, n, l.limit);
    steps := SweepForgets(g, full, a, p, n, l.limit, 2 * l.window, later);
  }

  /**
   * A prune call more than one window ahead can delete the row of a window that is still being counted: the
   * row's window then starts again, and one call more than the limit is admitted in it.
   */
  lemma EarlySweepForgetsAdmissions(g: Guard, a: Visit, p: Plan) returns (steps: seq<Step>)
    requires var l := g.contract(p.dimension); p.lead > l.window && a.now == l.window - 1
    requires Counts(a, p.dimension) && p.from <= a.now < p.to
    ensures Filled(g, steps, a, p, g.contract(p.dimension).limit + 1, 1)
  {
    var limit := g.contract(p.dimension).limit;
    var none := NoCalls(g, a, p);
    var one := FillAndSweep(g, none, a, p, 0, limit, a.now);
    steps := ManyCalls(g, one, a, p, limit, limit + 1, 1);
  }

  /**
   * Exactly how far ahead pruning may run: every run obeys the limit exactly when no prune call is more than one
   * window ahead.
   */
  lemma LimitHoldsExactlyWithinOneWindow(
      ring: Keyring, contract: Contract, dimension: AttemptDimension, lead: int)
    ensures (forall steps, identifier, start ::
              Prompt(KeyedGuard(ring, contract), steps, dimension, lead) && Aligned(contract(dimension), start) ==>
              ObeysLimit(
                ring.fold, contract(dimension), After(KeyedGuard(ring, contract), steps), dimension, identifier, start))
      <==> lead <= contract(dimension).window
  {
    var g, l := KeyedGuard(ring, contract), contract(dimension);
    if lead <= l.window {
      forall steps, identifier, start | Prompt(g, steps, dimension, lead) && Aligned(l, start)
        ensures ObeysLimit(ring.fold, l, After(g, steps), dimension, identifier, start)
      {
        ShorterLeadIsPrompt(g, steps, dimension, lead, l.window);
        PerIdentifierLimit(ring, contract, steps, dimension, identifier, start);
      }
    } else {
      var plan := Plan(dimension, lead, 0, WindowEnd(l, 0));
      var a := VisitTo(dimension, l.window - 1);
      var steps := EarlySweepForgetsAdmissions(g, a, plan);
      var identifier := FilledIsAdmitted(g, ring.fold, steps, a, plan, l.limit + 1, 1);
      WindowStartIsTheFloor(l, 0, 0);
      assert !ObeysLimit(ring.fold, l, After(g, steps), dimension, identifier, 0);
    }
  }

  /** The calls of such a run are all admissions of one identifier. */
  lemma FilledIsAdmitted(g: Guard, fold: Fold, steps: seq<Step>, a: Visit, p: Plan, n: nat, m: nat)
    returns (identifier: CanonicalKey)
    requires Filled(g, steps, a, p, n, m)
    ensures |AdmissionsFor(fold, After(g, steps).calls, p.dimension, identifier, p.from, p.to)| == n
  {
    identifier := Canonical(fold, KeyFor(p.dimension, a.keys).value);
    PassedCallsAreAdmissions(fold, After(g, steps), a, p, n);
  }

  lemma PassedCallsAreAdmissions(fold: Fold, w: World, a: Visit, p: Plan, n: nat)
    requires Counts(a, p.dimension) && AllPassed(w, a, p.from, p.to, n)
    ensures AdmissionsFor(fold, w.calls, p.dimension, Canonical(fold, KeyFor(p.dimension, a.keys).value), p.from, p.to)
      == FirstIds(n)
  {
  }

  lemma {:induction false} ShorterLeadIsPrompt(
      g: Guard, steps: seq<Step>, dimension: AttemptDimension, lead: int, longer: int)
    requires Prompt(g, steps, dimension, lead) && lead <= longer
    ensures Prompt(g, steps, dimension, longer)
  {
    if steps != [] {
      ShorterLeadIsPrompt(g, steps[..|steps| - 1], dimension, lead, longer);
    }
  }
}

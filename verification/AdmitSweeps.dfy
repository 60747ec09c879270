/** Exactly when prune calls, interleaved with the admissions at any instants of their own, change nothing. */
module AdmitSweeps {
  import opened Wrappers
  import opened Division
  import opened AuthErrors
  import opened Attempts
  import opened AttemptLimits
  import opened AttemptStore
  import opened AbuseGuard
  import opened AdmitProtocol
  import opened AdmitPruning

  /** No attempt is counted for an instant more than `lead` before a prune call already made on its dimension. */
  predicate AllPrompt(g: Guard, steps: seq<Step>, lead: int) {
    forall dimension :: Prompt(g, steps, dimension, lead)
  }

  function WithoutSweeps(steps: seq<Step>): seq<Step> {
    if steps == [] then []
    else
      var prefix := WithoutSweeps(steps[..|steps| - 1]);
      if steps[|steps| - 1].Sweep? then prefix else prefix + [steps[|steps| - 1]]
  }

  lemma {:induction false} NoSweepsAreLeft(steps: seq<Step>)
    ensures forall step :: step in WithoutSweeps(steps) ==> !step.Sweep?
  {
    if steps != [] {
      NoSweepsAreLeft(steps[..|steps| - 1]);
    }
  }

  /** The worlds of a run and of the same run without its sweeps, which differ only in forgotten rows. */
  predicate Alike(g: Guard, swept: World, full: World) {
    && swept.calls == full.calls && swept.sink == full.sink
    && Shadows(g, swept.table, full.table, swept.horizons)
  }

  lemma StepKeepsAlike(g: Guard, swept: World, full: World, step: Step)
    requires Alike(g, swept, full)
    requires forall dimension :: StepIsPrompt(swept, step, dimension, 0)
    ensures Alike(g, Apply(g, swept, step), if step.Sweep? then full else Apply(g, full, step))
  {
    match step
    case Observe(id) =>
      if Enabled(swept, step) {
        var c := swept.calls[id];
        var dimension := Dimensions(c.flow)[|c.seen|];
        assert StepIsPrompt(swept, step, dimension, 0);
        ObservePreservesShadow(g, swept.table, full.table, swept.horizons, RowFor(g, dimension, c.keys), c.now);
      }
    case Sweep(dimension, from, count, at) =>
      PrunePreservesShadow(g, swept.table, full.table, swept.horizons, dimension, from, count, at);
    case _ =>
  }

  /**
   * Under any interleaving: if no attempt is counted for an instant before that of an earlier prune call on its
   * dimension, every call ends as it would, and the audit log reads as it would, had no row ever been deleted.
   */
  lemma {:induction false} SweepsAreInvisible(g: Guard, steps: seq<Step>)
    requires AllPrompt(g, steps, 0)
    ensures Alike(g, After(g, steps), After(g, WithoutSweeps(steps)))
  {
    if steps != [] {
      var prefix, step := steps[..|steps| - 1], steps[|steps| - 1];
      forall dimension
        ensures Prompt(g, prefix, dimension, 0) && StepIsPrompt(After(g, prefix), step, dimension, 0)
      {
        assert Prompt(g, steps, dimension, 0);
      }
      SweepsAreInvisible(g, prefix);
      StepKeepsAlike(g, After(g, prefix), After(g, WithoutSweeps(prefix)), step);
      AfterAppend(g, WithoutSweeps(prefix), step);
    }
  }

  // ---- And pruning that runs ahead, by however little, can be seen -----------------------------

  /** Every call ends, and the audit log reads, as in the same run without its prune calls. */
  predicate EndsAlike(g: Guard, steps: seq<Step>) {
    var swept, full := After(g, steps), After(g, WithoutSweeps(steps));
    swept.calls == full.calls && swept.sink == full.sink
  }

  lemma {:induction false} WithoutSweepsOfBoth(a: seq<Step>, b: seq<Step>)
    ensures WithoutSweeps(a + b) == WithoutSweeps(a) + WithoutSweeps(b)
  {
    if b == [] {
      assert a + b == a;
    } else {
      WithoutSweepsOfBoth(a, b[..|b| - 1]);
      assert (a + b)[..|a + b| - 1] == a + b[..|b| - 1];
    }
  }

  lemma {:induction false} NothingToSweep(steps: seq<Step>)
    requires forall step :: step in steps ==> !step.Sweep?
    ensures WithoutSweeps(steps) == steps
  {
    if steps != [] {
      NothingToSweep(steps[..|steps| - 1]);
    }
  }

  /** The dimension of a flow that counts no other, so that its verdict is the call's. */
  const ALONE := ResetPasswordNetwork

  /** `n` calls are started and counted at the instant of `a`; what they were told does not matter. */
  function Crowd(a: Visit, n: nat): (steps: seq<Step>)
    ensures forall step :: step in steps ==> !step.Sweep?
  {
    if n == 0 then [] else Crowd(a, n - 1) + [Start(n - 1, a.flow, a.keys, 0, a.now), Observe(n - 1)]
  }

  lemma CountOne(g: Guard, w: World, a: Visit, id: nat)
    requires Dimensions(a.flow) == [ALONE] && id !in w.calls
    ensures var w' := Apply(g, Apply(g, w, Start(id, a.flow, a.keys, 0, a.now)), Observe(id));
      && w'.table == AfterObserve(w.table, ObservationFor(g, ALONE, a.keys, a.now))
      && w'.horizons == w.horizons && w'.calls.Keys == w.calls.Keys + {id}
  {
    var begun := Apply(g, w, Start(id, a.flow, a.keys, 0, a.now));
    assert Enabled(begun, Observe(id)) && Dimensions(a.flow)[0] == ALONE;
  }

  /** The row counts `n` attempts, each by a call of its own. */
  ghost predicate CrowdCounted(g: Guard, w: World, a: Visit, n: nat) {
    && Stands(w, ObservationFor(g, ALONE, a.keys, a.now), n)
    && w.horizons == map[] && forall id: nat :: id in w.calls ==> id < n
  }

  lemma OneMoreInCrowd(g: Guard, w: World, a: Visit, id: nat, n: nat)
    requires Dimensions(a.flow) == [ALONE] && CrowdCounted(g, w, a, id) && n == id + 1 <= CEILING
    ensures CrowdCounted(g, Apply(g, Apply(g, w, Start(id, a.flow, a.keys, 0, a.now)), Observe(id)), a, n)
  {
    CountOne(g, w, a, id);
  }

  /** The row counts them all, whether or not they were let through. */
  lemma {:induction false} CrowdIsCounted(g: Guard, a: Visit, n: nat)
    requires Dimensions(a.flow) == [ALONE] && n <= CEILING
    ensures CrowdCounted(g, After(g, Crowd(a, n)), a, n)
  {
    if n > 0 {
      var fewer, start := Crowd(a, n - 1), Start(n - 1, a.flow, a.keys, 0, a.now);
      CrowdIsCounted(g, a, n - 1);
      AfterAppend(g, fewer, start);
      AfterAppend(g, fewer + [start], Observe(n - 1));
      assert Crowd(a, n) == fewer + [start] + [Observe(n - 1)];
      OneMoreInCrowd(g, After(g, fewer), a, n - 1, n);
    }
  }

  /** As many attempts as make the charge in a window's last second reach the limit. */
  function Enough(l: Limit): (n: nat)
    ensures 1 <= n <= CEILING && n / Seconds(l) == l.limit
  {
    MulMono(l.limit, MAX_LIMIT, Seconds(l));
    MulMono(1, l.limit, Seconds(l));
    MulMono(Seconds(l), 86_400, MAX_LIMIT);
    QuotientIs(l.limit * Seconds(l), Seconds(l), l.limit);
    l.limit * Seconds(l)
  }

  /** In the last instant of the next window, the row still refuses and a fresh row does not. */
  lemma LastInstantTells(g: Guard, w: World, v: World, a: Visit, b: Visit)
    requires var l := g.contract(ALONE); a.now == l.window - 1 && b == a.(now := 2 * l.window - 1)
    requires Dimensions(a.flow) == [ALONE]
    requires Stands(w, ObservationFor(g, ALONE, a.keys, a.now), Enough(g.contract(ALONE)))
    requires Stands(v, ObservationFor(g, ALONE, a.keys, a.now), 0)
    ensures var o := ObservationFor(g, ALONE, b.keys, b.now);
      && Refuses(g, ALONE, OutcomeOf(w.table, o), b.now)
      && !Refuses(g, ALONE, OutcomeOf(v.table, o), b.now)
  {
    var l := g.contract(ALONE);
    WindowStartIsTheFloor(l, a.now, 0);
    WindowStartIsTheFloor(l, b.now, 1);
    FreshRowLets(g, v.table, ALONE, b.keys, b.now);
    LastSecondCharges(l, AttemptState(1, Enough(l), l.window), b.now);
  }

  lemma LastSecondCharges(l: Limit, state: AttemptState, now: int)
    requires state.previous == Enough(l) && state.current == 1 && now == state.windowStart + l.window - 1
    ensures ExceededBy(l, state, now)
  {
    var remaining := Seconds(l) - Elapsed(l, state, now);
    assert remaining == 1;
    assert state.previous * remaining == Enough(l);
  }

  /** With one dimension, the call's answer is the verdict on its row. */
  lemma LoneAnswer(g: Guard, table: Table, b: Visit)
    requires Dimensions(b.flow) == [ALONE]
    ensures var refuses := Refuses(g, ALONE, OutcomeOf(table, ObservationFor(g, ALONE, b.keys, b.now)), b.now);
      Answer(g, table, CallOf(b)) == if refuses then Err(Refused(TooManyAttempts)) else Ok(b.flow)
  {
    ReachIs({}, 1, 1);
    RefusalIsTheDisjunction(g, table, b.flow, b.keys, b.now, 1);
    assert RefusesAlone(g, table, b.flow, b.keys, b.now, 0)
      == Refuses(g, ALONE, OutcomeOf(table, ObservationFor(g, ALONE, b.keys, b.now)), b.now);
  }

  /** One instant ahead is enough: the prune call takes a row whose count is still charged. */
  lemma EarlySweepIsSeen(g: Guard, lead: int) returns (steps: seq<Step>)
    requires lead >= 1
    ensures AllPrompt(g, steps, lead) && !EndsAlike(g, steps)
  {
    var l := g.contract(ALONE);
    var a, n := VisitTo(ALONE, l.window - 1), Enough(l);
    var b, crowd := a.(now := 2 * l.window - 1), Crowd(a, n);
    var o := ObservationFor(g, ALONE, a.keys, a.now);
    var sweep, call := Sweep(ALONE, o.key.bucket, 1, 2 * l.window), SerialSteps(CallOf(b), n);
    steps := crowd + [sweep] + call;
    CrowdIsCounted(g, a, n);
    SweepTakesTheRow(g, After(g, crowd), a, n);
    AfterAppend(g, crowd, sweep);
    var w, v := After(g, crowd), After(g, crowd + [sweep]);
    LastInstantTells(g, w, v, a, b);
    LoneAnswer(g, w.table, b);
    LoneAnswer(g, v.table, b);
    AdmitIsARun(g, crowd, CallOf(b), n);
    AdmitIsARun(g, crowd + [sweep], CallOf(b), n);
    SweptOut(crowd, sweep, CallOf(b), n);
    forall dimension
      ensures Prompt(g, steps, dimension, lead)
    {
      SweptIsPrompt(g, crowd, sweep, b, n, dimension, lead);
    }
  }

  lemma SweepTakesTheRow(g: Guard, w: World, a: Visit, n: nat)
    requires a.now == g.contract(ALONE).window - 1 && Dimensions(a.flow) == [ALONE] && w.horizons == map[]
    requires Stands(w, ObservationFor(g, ALONE, a.keys, a.now), n)
    ensures var l, o := g.contract(ALONE), ObservationFor(g, ALONE, a.keys, a.now);
      var v := Apply(g, w, Sweep(ALONE, o.key.bucket, 1, 2 * l.window));
      Stands(v, o, 0) && v.calls == w.calls && v.horizons == map[ALONE := 2 * l.window]
  {
    WindowStartIsTheFloor(g.contract(ALONE), a.now, 0);
    SweepOne(g, w, RowFor(g, ALONE, a.keys), 2 * g.contract(ALONE).window);
  }

  lemma {:induction false} ObservesDoNotSweep(id: nat, n: nat)
    ensures forall step :: step in Observes(id, n) ==> !step.Sweep?
  {
    if n > 0 {
      ObservesDoNotSweep(id, n - 1);
    }
  }

  lemma SweptOut(crowd: seq<Step>, sweep: Step, c: AdmitCall, id: nat)
    requires sweep.Sweep? && forall step :: step in crowd ==> !step.Sweep?
    ensures WithoutSweeps(crowd + [sweep] + SerialSteps(c, id)) == crowd + SerialSteps(c, id)
  {
    ObservesDoNotSweep(id, CountedBy(c));
    NothingToSweep(crowd);
    NothingToSweep(SerialSteps(c, id));
    WithoutSweepsOfBoth(crowd + [sweep], SerialSteps(c, id));
    assert (crowd + [sweep])[..|crowd|] == crowd;
  }

  lemma SweptIsPrompt(
      g: Guard, crowd: seq<Step>, sweep: Step, b: Visit, id: nat, dimension: AttemptDimension, lead: int)
    requires sweep.Sweep? && (forall step :: step in crowd ==> !step.Sweep?) && KeysPresent(b.flow, b.keys)
    requires id !in After(g, crowd + [sweep]).calls
    requires !Overtakes(Lookup(After(g, crowd + [sweep]).horizons, dimension), b.now, lead)
    ensures Prompt(g, crowd + [sweep] + SerialSteps(CallOf(b), id), dimension, lead)
  {
    RunsWithoutSweepsArePrompt(g, crowd, dimension, lead);
    var swept := PromptStep(g, crowd, sweep, dimension, lead);
    var steps := PromptCall(g, swept, b, id, dimension, lead);
  }

  /**
   * Prune calls change nothing in any run exactly when none is ahead at all: for every guard, a single nanosecond
   * of lead admits a call that the full table refuses.
   */
  lemma SweepsAreInvisibleExactly(g: Guard, lead: int)
    ensures (forall steps :: AllPrompt(g, steps, lead) ==> EndsAlike(g, steps)) <==> lead <= 0
  {
    if lead <= 0 {
      forall steps | AllPrompt(g, steps, lead)
        ensures EndsAlike(g, steps)
      {
        forall dimension
          ensures Prompt(g, steps, dimension, 0)
        {
          ShorterLeadIsPrompt(g, steps, dimension, lead, 0);
        }
        SweepsAreInvisible(g, steps);
      }
    } else {
      var steps := EarlySweepIsSeen(g, lead);
    }
  }
}

/**
 * The burst, for every identifier over every interleaving of concurrent admissions, and exactly how far ahead of
 * them prune calls may run.
 */
module AdmitBurst {
  import opened Wrappers
  import opened FiniteSets
  import opened Attempts
  import opened AttemptLimits
  import opened AttemptStore
  import opened AttemptKeyring
  import opened AttemptLog
  import opened AttemptBurst
  import opened AbuseGuard
  import opened AdmitProtocol
  import opened AdmitPruning

  predicate Observes(g: Guard, w: World, step: Step, key: RowKey) {
    step.Observe? && Enabled(w, step) && NextObservation(g, w.calls[step.id]).key == key
  }

  /** The log of one row, `times`, after one more step. */
  function Extended(g: Guard, w: World, step: Step, key: RowKey, times: seq<int>): seq<int> {
    if Observes(g, w, step, key) then times + [w.calls[step.id].now] else times
  }

  /** The instants a run counts on one row, in the order it counts them. */
  function InstantsOn(g: Guard, steps: seq<Step>, key: RowKey): seq<int> {
    if steps == [] then []
    else
      var prefix := steps[..|steps| - 1];
      Extended(g, After(g, prefix), steps[|steps| - 1], key, InstantsOn(g, prefix, key))
  }

  /** Without sweeps, a row of the shared table is the row of its own log. */
  predicate FollowsLog(g: Guard, w: World, key: RowKey, times: seq<int>) {
    StateAt(w.table, key) == RowAfter(g.contract(key.dimension), times)
  }

  lemma StepFollowsLog(g: Guard, w: World, step: Step, key: RowKey, times: seq<int>)
    requires FollowsLog(g, w, key, times) && !step.Sweep?
    ensures FollowsLog(g, Apply(g, w, step), key, Extended(g, w, step, key, times))
  {
    if step.Observe? && Enabled(w, step) {
      ObserveTouchesOneRow(w.table, NextObservation(g, w.calls[step.id]));
      if Observes(g, w, step, key) {
        var more := Extended(g, w, step, key, times);
        assert more[..|more| - 1] == times;
      }
    }
  }

  /** Whether the observation is let through is what the row's log says of it. */
  lemma OutcomeFollowsLog(g: Guard, w: World, id: nat, key: RowKey, times: seq<int>)
    requires Observes(g, w, Observe(id), key) && FollowsLog(g, w, key, times)
    ensures var l, c := g.contract(key.dimension), w.calls[id];
      OutcomeOf(w.table, NextObservation(g, c)) == OutcomeAt(l, RowAfter(l, times), c.now)
  {
  }

  /** A call counts each row once, so it holds no grant of the row it is about to count. */
  lemma NotYetGranted(g: Guard, w: World, id: nat, key: RowKey, from: int, to: int)
    requires Inv(g, w) && Observes(g, w, Observe(id), key)
    ensures id !in Grants(g, w.calls, key, from, to)
  {
    var c := w.calls[id];
    if c.seen != [] {
      RowsOfOneCallDiffer(g, c.flow, c.keys, |c.seen|);
    }
  }

  lemma GrantsGrow(g: Guard, w: World, id: nat, key: RowKey, from: int, to: int)
    requires Inv(g, w) && Observes(g, w, Observe(id), key)
    ensures var now, outcome := w.calls[id].now, OutcomeOf(w.table, NextObservation(g, w.calls[id]));
      |Grants(g, Apply(g, w, Observe(id)).calls, key, from, to)| == |Grants(g, w.calls, key, from, to)|
        + if !Refuses(g, key.dimension, outcome, now) && from <= now < to then 1 else 0
  {
    ObserveGrants(g, w, id, key, from, to);
    NotYetGranted(g, w, id, key, from, to);
  }

  lemma ObservationAddsAdmission(g: Guard, w: World, id: nat, key: RowKey, times: seq<int>, from: int, to: int)
    requires Inv(g, w) && FollowsLog(g, w, key, times) && Observes(g, w, Observe(id), key)
    ensures var l := g.contract(key.dimension);
      |Grants(g, Apply(g, w, Observe(id)).calls, key, from, to)| - |Grants(g, w.calls, key, from, to)|
        == AdmittedIn(l, times + [w.calls[id].now], from, to) - AdmittedIn(l, times, from, to)
  {
    GrantsGrow(g, w, id, key, from, to);
    OutcomeFollowsLog(g, w, id, key, times);
    OneMoreAdmitted(g.contract(key.dimension), times, w.calls[id].now, from, to);
  }

  /** What one more step adds to the grants of a row, it adds to the admissions of the row's log. */
  lemma StepAddsAdmission(g: Guard, w: World, step: Step, key: RowKey, times: seq<int>, from: int, to: int)
    requires Inv(g, w) && FollowsLog(g, w, key, times) && !step.Sweep?
    ensures var l := g.contract(key.dimension);
      |Grants(g, Apply(g, w, step).calls, key, from, to)| - |Grants(g, w.calls, key, from, to)|
        == AdmittedIn(l, Extended(g, w, step, key, times), from, to) - AdmittedIn(l, times, from, to)
  {
    if Observes(g, w, step, key) {
      ObservationAddsAdmission(g, w, step.id, key, times, from, to);
    } else if Enabled(w, step) {
      if step.Observe? {
        ObserveGrants(g, w, step.id, key, from, to);
      } else {
        GrantsUnchanged(g, w.calls, step.id, Apply(g, w, step).calls[step.id], key, from, to);
      }
    }
  }

  lemma OneMoreAdmitted(l: Limit, times: seq<int>, now: int, from: int, to: int)
    ensures var outcome := OutcomeAt(l, RowAfter(l, times), now);
      AdmittedIn(l, times + [now], from, to) == AdmittedIn(l, times, from, to)
        + if outcome.Counted? && !ExceededBy(l, outcome.state, now) && from <= now < to then 1 else 0
  {
    assert (times + [now])[..|times|] == times;
  }

  /**
   * Without sweeps, each row of the shared table follows the log of the instants counted on it, and concurrent
   * calls were granted exactly what that log admits.
   */
  lemma {:induction false} GrantsAreAdmissions(g: Guard, steps: seq<Step>, key: RowKey, from: int, to: int)
    requires forall step :: step in steps ==> !step.Sweep?
    ensures FollowsLog(g, After(g, steps), key, InstantsOn(g, steps, key))
    ensures |Grants(g, After(g, steps).calls, key, from, to)|
      == AdmittedIn(g.contract(key.dimension), InstantsOn(g, steps, key), from, to)
  {
    if steps == [] {
      assert Grants(g, INIT.calls, key, from, to) == {};
    } else {
      var prefix, step := steps[..|steps| - 1], steps[|steps| - 1];
      GrantsAreAdmissions(g, prefix, key, from, to);
      InvHolds(g, prefix);
      StepFollowsLog(g, After(g, prefix), step, key, InstantsOn(g, prefix, key));
      StepAddsAdmission(g, After(g, prefix), step, key, InstantsOn(g, prefix, key), from, to);
    }
  }

  // ---- The burst, with prune calls at most one instant ahead -----------------------------------

  lemma GrantsSplit(g: Guard, calls: map<nat, Call>, key: RowKey, from: int, mid: int, to: int)
    requires from <= mid <= to
    ensures |Grants(g, calls, key, from, to)| == |Grants(g, calls, key, from, mid)| + |Grants(g, calls, key, mid, to)|
  {
    var early, late := Grants(g, calls, key, from, mid), Grants(g, calls, key, mid, to);
    forall id
      ensures id in Grants(g, calls, key, from, to) <==> id in early + late
    {
      assert id in calls ==>
        (Granted(g, calls[id], key, from, to) <==>
         Granted(g, calls[id], key, from, mid) || Granted(g, calls[id], key, mid, to));
    }
    assert Grants(g, calls, key, from, to) == early + late;
    DisjointSizes(early, late);
  }

  lemma GrantsNarrow(g: Guard, calls: map<nat, Call>, key: RowKey, from: int, to: int, wider: int, later: int)
    requires wider <= from && to <= later
    ensures |Grants(g, calls, key, from, to)| <= |Grants(g, calls, key, wider, later)|
  {
    SubsetIsSmaller(Grants(g, calls, key, from, to), Grants(g, calls, key, wider, later));
  }

  /** Any half-open span of one window length that starts at `s` holds at most `MaxBurst` grants of the row. */
  predicate BurstInv(g: Guard, w: World, key: RowKey, s: int) {
    var l := g.contract(key.dimension);
    |Grants(g, w.calls, key, s, WindowEnd(l, s))| <= MaxBurst(l)
  }

  /** The window after the one that starts at `start`. */
  lemma NextIsAligned(l: Limit, start: int)
    requires Aligned(l, start)
    ensures Aligned(l, WindowEnd(l, start))
  {
    var k := WindowIndex(l, start);
    NextWindow(l, k);
    WindowStartIsTheFloor(l, WindowEnd(l, start), k + 1);
  }

  /** An instant lies in the aligned window that starts at `start`. */
  lemma InWindow(l: Limit, start: int, now: int)
    requires Aligned(l, start) && start <= now < start + l.window
    ensures WindowStart(l, now) == start
  {
    WindowStartIsTheFloor(l, now, WindowIndex(l, start));
  }

  /** While its expiry is not yet pruned, what a row's window granted is still in the row. */
  lemma GrantsAreHeld(g: Guard, w: World, key: RowKey, start: int, state: AttemptState)
    requires GrantInv(g, w, key, start) && StateAt(w.table, key) == Some(state)
    requires var l := g.contract(key.dimension);
      && Aligned(l, start) && !Overtakes(Lookup(w.horizons, key.dimension), WindowEnd(l, start), l.window - 1)
    ensures var l := g.contract(key.dimension);
      var n := |Grants(g, w.calls, key, start, WindowEnd(l, start))|;
      && n <= l.limit
      && (state.windowStart == start ==> n <= state.current)
      && (state.windowStart == start + l.window ==> n <= state.previous)
  {
  }

  /** An admission in the later of the two windows a span meets: the earlier one is still charged. */
  lemma LateObservationKeepsBurst(g: Guard, w: World, id: nat, key: RowKey, s: int, start: int)
    requires Enabled(w, Observe(id)) && Limited(g, Apply(g, w, Observe(id)), key.dimension)
    requires NextObservation(g, w.calls[id]).key == key
    requires !Refuses(g, key.dimension, OutcomeOf(w.table, NextObservation(g, w.calls[id])), w.calls[id].now)
    requires var l, now := g.contract(key.dimension), w.calls[id].now;
      && Aligned(l, start) && start <= s < start + l.window <= now < s + l.window
      && !Overtakes(Lookup(w.horizons, key.dimension), now, 1)
    ensures BurstInv(g, Apply(g, w, Observe(id)), key, s)
  {
    var l, now, after := g.contract(key.dimension), w.calls[id].now, Apply(g, w, Observe(id));
    var state, mid := OutcomeOf(w.table, NextObservation(g, w.calls[id])).state, WindowEnd(l, start);
    NextIsAligned(l, start);
    InWindow(l, mid, now);
    assert GrantInv(g, after, key, start) && GrantInv(g, after, key, mid);
    GrantsAreHeld(g, after, key, start, state);
    GrantsAreHeld(g, after, key, mid, state);
    GrantsSplit(g, after.calls, key, s, mid, WindowEnd(l, s));
    GrantsNarrow(g, after.calls, key, s, mid, start, mid);
    GrantsNarrow(g, after.calls, key, mid, WindowEnd(l, s), mid, WindowEnd(l, mid));
    BurstAtState(l, state, now,
                 |Grants(g, after.calls, key, s, mid)|, |Grants(g, after.calls, key, mid, WindowEnd(l, s))|);
  }

  /** An admission in the earlier window: then no attempt of the later one was granted before. */
  lemma EarlyObservationKeepsBurst(g: Guard, w: World, id: nat, key: RowKey, s: int, start: int)
    requires Enabled(w, Observe(id)) && Limited(g, Apply(g, w, Observe(id)), key.dimension)
    requires NextObservation(g, w.calls[id]).key == key
    requires !Refuses(g, key.dimension, OutcomeOf(w.table, NextObservation(g, w.calls[id])), w.calls[id].now)
    requires var l, now := g.contract(key.dimension), w.calls[id].now;
      && Aligned(l, start) && start <= s <= now < start + l.window
      && !Overtakes(Lookup(w.horizons, key.dimension), now, 1)
    ensures BurstInv(g, Apply(g, w, Observe(id)), key, s)
  {
    var l, now, after := g.contract(key.dimension), w.calls[id].now, Apply(g, w, Observe(id));
    var mid := WindowEnd(l, start);
    NextIsAligned(l, start);
    InWindow(l, start, now);
    assert GrantInv(g, after, key, start) && GrantInv(g, after, key, mid);
    GrantsSplit(g, after.calls, key, s, mid, WindowEnd(l, s));
    GrantsNarrow(g, after.calls, key, s, mid, start, mid);
    GrantsNarrow(g, after.calls, key, mid, WindowEnd(l, s), mid, WindowEnd(l, mid));
    MaxBurstAtLeastLimit(l);
  }

  lemma StepKeepsBurst(g: Guard, w: World, step: Step, key: RowKey, s: int)
    requires Inv(g, w) && Limited(g, Apply(g, w, step), key.dimension) && BurstInv(g, w, key, s)
    requires StepIsPrompt(w, step, key.dimension, 1)
    ensures BurstInv(g, Apply(g, w, step), key, s)
  {
    var l := g.contract(key.dimension);
    if step.Observe? && Enabled(w, step) {
      var c, start := w.calls[step.id], WindowStart(l, s);
      ObserveGrants(g, w, step.id, key, s, WindowEnd(l, s));
      StartIsAligned(l, s);
      WindowStartIsTheFloor(l, s, WindowIndex(l, s));
      var o := NextObservation(g, c);
      if o.key == key && s <= c.now < WindowEnd(l, s) && !Refuses(g, key.dimension, OutcomeOf(w.table, o), c.now) {
        if c.now < WindowEnd(l, start) {
          EarlyObservationKeepsBurst(g, w, step.id, key, s, start);
        } else {
          LateObservationKeepsBurst(g, w, step.id, key, s, start);
        }
      }
    } else if Enabled(w, step) && !step.Sweep? {
      GrantsUnchanged(g, w.calls, step.id, Apply(g, w, step).calls[step.id], key, s, WindowEnd(l, s));
    }
  }

  lemma {:induction false} BurstHolds(g: Guard, steps: seq<Step>, key: RowKey, s: int)
    requires Prompt(g, steps, key.dimension, 1)
    ensures BurstInv(g, After(g, steps), key, s)
  {
    if steps == [] {
      assert Grants(g, INIT.calls, key, s, WindowEnd(g.contract(key.dimension), s)) == {};
      MaxBurstAtLeastLimit(g.contract(key.dimension));
    } else {
      var prefix, step := steps[..|steps| - 1], steps[|steps| - 1];
      BurstHolds(g, prefix, key, s);
      InvHolds(g, prefix);
      ShorterLeadIsPrompt(g, steps, key.dimension, 1, g.contract(key.dimension).window);
      LimitedHolds(g, steps, key.dimension);
      StepKeepsBurst(g, After(g, prefix), step, key, s);
    }
  }

  // ---- Exactly how far ahead pruning may run ---------------------------------------------------

  /** A span of one window length that starts at `s` holds at most `most` admissions of the identifier. */
  predicate ObeysBurst(
      fold: Fold, l: Limit, w: World, dimension: AttemptDimension, identifier: CanonicalKey, s: int, most: int) {
    |AdmissionsFor(fold, w.calls, dimension, identifier, s, WindowEnd(l, s))| <= most
  }

  /**
   * Whatever interleaves and whoever shares its bucket, an identifier gets at most `MaxBurst` admissions on a
   * dimension at the instants of any half-open span of one window length, as long as no prune call on it is more
   * than one instant, a nanosecond, ahead.
   */
  lemma PerIdentifierBurst(
      ring: Keyring, contract: Contract, steps: seq<Step>,
      dimension: AttemptDimension, identifier: CanonicalKey, s: int)
    requires Prompt(KeyedGuard(ring, contract), steps, dimension, 1)
    ensures ObeysBurst(ring.fold, contract(dimension), After(KeyedGuard(ring, contract), steps),
                       dimension, identifier, s, MaxBurst(contract(dimension)))
  {
    var g := KeyedGuard(ring, contract);
    KeyedGuardFolds(ring, contract);
    InvHolds(g, steps);
    var key := AdmissionsAreGrants(
      g, ring.fold, After(g, steps), dimension, identifier, s, WindowEnd(contract(dimension), s));
    BurstHolds(g, steps, key, s);
  }

  /** With prune calls up to one window ahead, the burst is still at most twice the limit. */
  lemma TwiceTheLimit(
      ring: Keyring, contract: Contract, steps: seq<Step>,
      dimension: AttemptDimension, identifier: CanonicalKey, s: int)
    requires Prompt(KeyedGuard(ring, contract), steps, dimension, contract(dimension).window)
    ensures ObeysBurst(ring.fold, contract(dimension), After(KeyedGuard(ring, contract), steps),
                       dimension, identifier, s, 2 * contract(dimension).limit)
  {
    var g, l := KeyedGuard(ring, contract), contract(dimension);
    KeyedGuardFolds(ring, contract);
    InvHolds(g, steps);
    LimitedHolds(g, steps, dimension);
    var key := AdmissionsAreGrants(g, ring.fold, After(g, steps), dimension, identifier, s, WindowEnd(l, s));
    TwoWindows(g, After(g, steps), key, s);
  }

  lemma TwoWindows(g: Guard, w: World, key: RowKey, s: int)
    requires Limited(g, w, key.dimension)
    ensures var l := g.contract(key.dimension); |Grants(g, w.calls, key, s, WindowEnd(l, s))| <= 2 * l.limit
  {
    var l := g.contract(key.dimension);
    var start := WindowStart(l, s);
    var mid := WindowEnd(l, start);
    StartIsAligned(l, s);
    NextIsAligned(l, start);
    WindowStartIsTheFloor(l, s, WindowIndex(l, s));
    LimitedRow(g, w, key, l, start, mid);
    LimitedRow(g, w, key, l, mid, WindowEnd(l, mid));
    GrantsSplit(g, w.calls, key, s, mid, WindowEnd(l, s));
    GrantsNarrow(g, w.calls, key, s, mid, start, mid);
    GrantsNarrow(g, w.calls, key, mid, WindowEnd(l, s), mid, WindowEnd(l, mid));
  }

  /** Two instants ahead is enough to forget a whole window: `limit` at its end, and `limit` again in the next. */
  lemma EarlySweepDoublesTheBurst(g: Guard, a: Visit, dimension: AttemptDimension, lead: int)
    returns (steps: seq<Step>, last: Visit)
    requires Counts(a, dimension) && lead >= 2
    ensures var l := g.contract(dimension);
      Filled(g, steps, last, Plan(dimension, lead, l.window - 1, WindowEnd(l, l.window - 1)), 2 * l.limit, l.limit)
  {
    var l := g.contract(dimension);
    var p, first := Plan(dimension, lead, l.window - 1, WindowEnd(l, l.window - 1)), a.(now := l.window - 1);
    last := a.(now := 2 * l.window - 2);
    var none := NoCalls(g, first, p);
    var one := FillAndSweep(g, none, first, p, 0, l.limit, last.now);
    assert first.(now := last.now) == last;
    steps := ManyCalls(g, one, last, p, l.limit, 2 * l.limit, l.limit);
  }

  /** More than one window ahead, the same window can be filled again and again. */
  lemma EarlySweepsRefillTheWindow(g: Guard, a: Visit, dimension: AttemptDimension, lead: int)
    returns (steps: seq<Step>, last: Visit)
    requires Counts(a, dimension) && lead > g.contract(dimension).window
    ensures var l := g.contract(dimension);
      Filled(g, steps, last, Plan(dimension, lead, l.window - 1, WindowEnd(l, l.window - 1)), 2 * l.limit + 1, 1)
  {
    var l := g.contract(dimension);
    var p := Plan(dimension, lead, l.window - 1, WindowEnd(l, l.window - 1));
    last := a.(now := l.window - 1);
    var none := NoCalls(g, last, p);
    var one := FillAndSweep(g, none, last, p, 0, l.limit, last.now);
    var two := FillAndSweep(g, one, last, p, l.limit, 2 * l.limit, last.now);
    steps := ManyCalls(g, two, last, p, 2 * l.limit, 2 * l.limit + 1, 1);
  }

  /** Every run whose prune calls are at most `lead` ahead on the dimension bounds its bursts by `most`. */
  ghost predicate AllObeyBurst(ring: Keyring, contract: Contract, dimension: AttemptDimension, lead: int, most: int) {
    forall steps, identifier, s :: Prompt(KeyedGuard(ring, contract), steps, dimension, lead) ==>
      ObeysBurst(
        ring.fold, contract(dimension), After(KeyedGuard(ring, contract), steps), dimension, identifier, s, most)
  }

  lemma FilledBreaksBurst(
      ring: Keyring, contract: Contract, steps: seq<Step>, a: Visit, dimension: AttemptDimension, lead: int,
      n: nat, m: nat, most: int)
    requires var l := contract(dimension);
      var p := Plan(dimension, lead, l.window - 1, WindowEnd(l, l.window - 1));
      Filled(KeyedGuard(ring, contract), steps, a, p, n, m)
    requires n > most
    ensures !AllObeyBurst(ring, contract, dimension, lead, most)
  {
    var g, l := KeyedGuard(ring, contract), contract(dimension);
    var identifier := FilledIsAdmitted(
      g, ring.fold, steps, a, Plan(dimension, lead, l.window - 1, WindowEnd(l, l.window - 1)), n, m);
    assert !ObeysBurst(ring.fold, l, After(g, steps), dimension, identifier, l.window - 1, most);
  }

  /** Twice the limit bounds the bursts of every run exactly when no prune call is more than one window ahead. */
  lemma TwiceTheLimitHoldsExactlyWithinOneWindow(
      ring: Keyring, contract: Contract, dimension: AttemptDimension, lead: int)
    ensures AllObeyBurst(ring, contract, dimension, lead, 2 * contract(dimension).limit)
      <==> lead <= contract(dimension).window
  {
    var g, l := KeyedGuard(ring, contract), contract(dimension);
    if lead <= l.window {
      forall steps, identifier, s | Prompt(g, steps, dimension, lead)
        ensures ObeysBurst(ring.fold, l, After(g, steps), dimension, identifier, s, 2 * l.limit)
      {
        ShorterLeadIsPrompt(g, steps, dimension, lead, l.window);
        TwiceTheLimit(ring, contract, steps, dimension, identifier, s);
      }
    } else {
      var steps, last := EarlySweepsRefillTheWindow(g, VisitTo(dimension, 0), dimension, lead);
      FilledBreaksBurst(ring, contract, steps, last, dimension, lead, 2 * l.limit + 1, 1, 2 * l.limit);
    }
  }

  /**
   * `MaxBurst` bounds the bursts of every run exactly when no prune call is more than one instant ahead, or, if it
   * is twice the limit anyway, more than one window.
   */
  lemma MaxBurstHoldsExactly(
      ring: Keyring, contract: Contract, dimension: AttemptDimension, lead: int)
    ensures var l := contract(dimension);
      && (AllObeyBurst(ring, contract, dimension, lead, MaxBurst(l)) <==>
            (lead <= 1 || (lead <= l.window && Seconds(l) > l.limit)))
  {
    var g, l := KeyedGuard(ring, contract), contract(dimension);
    MaxBurstAtLeastLimit(l);
    if lead <= 1 {
      forall steps, identifier, s | Prompt(g, steps, dimension, lead)
        ensures ObeysBurst(ring.fold, l, After(g, steps), dimension, identifier, s, MaxBurst(l))
      {
        ShorterLeadIsPrompt(g, steps, dimension, lead, 1);
        PerIdentifierBurst(ring, contract, steps, dimension, identifier, s);
      }
    } else if Seconds(l) > l.limit {
      TwiceTheLimitHoldsExactlyWithinOneWindow(ring, contract, dimension, lead);
    } else {
      var steps, last := EarlySweepDoublesTheBurst(g, VisitTo(dimension, 0), dimension, lead);
      FilledBreaksBurst(ring, contract, steps, last, dimension, lead, 2 * l.limit, l.limit, MaxBurst(l));
    }
  }
}

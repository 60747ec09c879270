/**
 * Any number of admissions in flight at once, over one store and one audit sink, under an arbitrary
 * scheduler. One step is one port call; a step that is not enabled does nothing.
 */
module AdmitProtocol {
  import opened Wrappers
  import opened Bytes
  import opened Division
  import opened FiniteSets
  import opened AuthErrors
  import opened Attempts
  import opened AttemptLimits
  import opened AttemptStore
  import opened AttemptKeyring
  import opened AttemptLog
  import opened AbuseGuard

  /** A call whose record failed is refused as if it were too many, and leaves no record. */
  datatype Status = Running | Admitted | TooMany | Unrecorded | Misconfigured | Unavailable

  /** One call of `admit`: its arguments, the outcomes it has been given so far, and how it ended. */
  datatype Call = Call(
    flow: AttemptFlow, keys: FlowKeys, correlation: nat, now: int, seen: seq<AttemptOutcome>, status: Status)

  /** `horizons` remembers, by dimension, the latest instant a prune call was made at. */
  datatype World = World(table: Table, sink: seq<AuditEvent>, calls: map<nat, Call>, horizons: Horizons)

  const INIT: World := World(map[], [], map[], map[])

  datatype Step =
    | Start(id: nat, flow: AttemptFlow, keys: FlowKeys, correlation: nat, now: int)
    | Observe(id: nat)
    | StoreFails(id: nat)
    | KeyMissing(id: nat)
    | Record(id: nat)
    | RecordFails(id: nat)
    | Sweep(dimension: AttemptDimension, from: nat, count: nat, at: int)

  predicate Counting(c: Call) {
    c.status == Running && |c.seen| < |Dimensions(c.flow)|
  }

  function NextKey(c: Call): Option<AttemptKey>
    requires Counting(c)
  {
    KeyFor(Dimensions(c.flow)[|c.seen|], c.keys)
  }

  predicate Enabled(w: World, step: Step) {
    match step
    case Start(id, _, _, _, _) => id !in w.calls
    case Observe(id) => id in w.calls && Counting(w.calls[id]) && NextKey(w.calls[id]).Some?
    case StoreFails(id) => id in w.calls && Counting(w.calls[id]) && NextKey(w.calls[id]).Some?
    case KeyMissing(id) => id in w.calls && Counting(w.calls[id]) && NextKey(w.calls[id]).None?
    case Record(id) => id in w.calls && w.calls[id].status == Running && !Counting(w.calls[id])
    case RecordFails(id) => id in w.calls && w.calls[id].status == Running && !Counting(w.calls[id])
    case Sweep(_, _, _, _) => true
  }

  /** Whether dimension `i` of a call let it through. */
  predicate Lets(g: Guard, c: Call, i: nat)
    requires i < |c.seen| && i < |Dimensions(c.flow)|
  {
    !Refuses(g, Dimensions(c.flow)[i], c.seen[i], c.now)
  }

  predicate AllLet(g: Guard, c: Call)
    requires |c.seen| <= |Dimensions(c.flow)|
  {
    forall i :: 0 <= i < |c.seen| ==> Lets(g, c, i)
  }

  function NextObservation(g: Guard, c: Call): AttemptStore.Observation
    requires Counting(c) && NextKey(c).Some?
  {
    ObservationFor(g, Dimensions(c.flow)[|c.seen|], c.keys, c.now)
  }

  function Apply(g: Guard, w: World, step: Step): World {
    if !Enabled(w, step) then w
    else match step
      case Start(id, flow, keys, correlation, now) =>
        w.(calls := w.calls[id := Call(flow, keys, correlation, now, [], Running)])
      case Observe(id) =>
        var c := w.calls[id];
        var o := NextObservation(g, c);
        w.(table := AfterObserve(w.table, o),
           calls := w.calls[id := c.(seen := c.seen + [OutcomeOf(w.table, o)])])
      case StoreFails(id) => w.(calls := w.calls[id := w.calls[id].(status := Unavailable)])
      case KeyMissing(id) => w.(calls := w.calls[id := w.calls[id].(status := Misconfigured)])
      case Record(id) =>
        var c := w.calls[id];
        var passed := |c.seen| == |Dimensions(c.flow)| && AllLet(g, c);
        w.(sink := w.sink + [AuditEvent(c.flow, if passed then Permitted else Denied, c.correlation, c.now)],
           calls := w.calls[id := c.(status := if passed then Admitted else TooMany)])
      case RecordFails(id) => w.(calls := w.calls[id := w.calls[id].(status := Unrecorded)])
      case Sweep(dimension, from, count, at) =>
        w.(table := AfterPrune(w.table, dimension, from, count, at),
           horizons := Later(w.horizons, dimension, at))
  }

  function After(g: Guard, steps: seq<Step>): World {
    if steps == [] then INIT
    else Apply(g, After(g, steps[..|steps| - 1]), steps[|steps| - 1])
  }

  /** A prune call was made at an instant more than `lead` after `now`. */
  predicate Overtakes(horizon: Option<int>, now: int, lead: int) {
    horizon.Some? && horizon.value > now + lead
  }

  /** The step counts an attempt on `dimension`. */
  predicate CountsOn(w: World, step: Step, dimension: AttemptDimension) {
    step.Observe? && Enabled(w, step) && Dimensions(w.calls[step.id].flow)[|w.calls[step.id].seen|] == dimension
  }

  predicate StepIsPrompt(w: World, step: Step, dimension: AttemptDimension, lead: int) {
    CountsOn(w, step, dimension) ==> !Overtakes(Lookup(w.horizons, dimension), w.calls[step.id].now, lead)
  }

  /**
   * The discipline a caller of `prune` has to keep: no prune call on `dimension` is for an instant more than
   * `lead` after one that is still to be counted there.
   */
  predicate Prompt(g: Guard, steps: seq<Step>, dimension: AttemptDimension, lead: int) {
    if steps == [] then true
    else
      && Prompt(g, steps[..|steps| - 1], dimension, lead)
      && StepIsPrompt(After(g, steps[..|steps| - 1]), steps[|steps| - 1], dimension, lead)
  }

  // ---- The invariant ---------------------------------------------------------------------------

  predicate CallInv(g: Guard, c: Call) {
    && |c.seen| <= |Dimensions(c.flow)|
    && (c.seen != [] ==> KeysPresent(c.flow, c.keys))
    && (c.status == Admitted ==> |c.seen| == |Dimensions(c.flow)| && AllLet(g, c))
    && (c.status == TooMany ==> |c.seen| == |Dimensions(c.flow)| && !AllLet(g, c))
    && (c.status == Unrecorded ==> |c.seen| == |Dimensions(c.flow)|)
    && (c.status == Misconfigured ==> c.seen == [] && !KeysPresent(c.flow, c.keys))
    && (c.status == Unavailable ==> |c.seen| < |Dimensions(c.flow)| && KeysPresent(c.flow, c.keys))
  }

  /** The call carries an instant in `[from, to)`, has been counted on `key`, and that dimension let it through. */
  predicate Granted(g: Guard, c: Call, key: RowKey, from: int, to: int) {
    from <= c.now < to && exists i :: 0 <= i < |c.seen| && GrantedAt(g, c, i, key)
  }

  predicate GrantedAt(g: Guard, c: Call, i: nat, key: RowKey)
    requires i < |c.seen|
  {
    && i < |Dimensions(c.flow)|
    && KeyFor(Dimensions(c.flow)[i], c.keys).Some?
    && RowFor(g, Dimensions(c.flow)[i], c.keys) == key
    && Lets(g, c, i)
  }

  function Grants(g: Guard, calls: map<nat, Call>, key: RowKey, from: int, to: int): set<nat> {
    set id | id in calls && Granted(g, calls[id], key, from, to)
  }

  /** Some window starts at `start`. */
  predicate Aligned(l: Limit, start: int) {
    WindowStart(l, start) == start
  }

  lemma StartIsAligned(l: Limit, now: int)
    ensures Aligned(l, WindowStart(l, now))
  {
    WindowStartIsTheFloor(l, WindowStart(l, now), WindowIndex(l, now));
  }

  /** Two window starts are at least a window apart. */
  lemma AlignedApart(l: Limit, a: int, b: int)
    requires Aligned(l, a) && Aligned(l, b) && a < b
    ensures a + l.window <= b
  {
    var i, j := WindowIndex(l, a), WindowIndex(l, b);
    if i >= j {
      MulMono(j, i, l.window);
    }
    MulMono(i + 1, j, l.window);
    NextWindow(l, i);
  }

  /**
   * `n` grants in one window of one row: within the limit, and within the row's own count while the row stands
   * in that window or in the next; they can only be forgotten once a prune call has passed the row's expiry.
   */
  predicate Bounded(n: nat, l: Limit, start: int, stored: Option<AttemptState>, horizon: Option<int>) {
    && n <= l.limit
    && (n > 0 ==>
          || (stored.Some? && stored.value.windowStart >= start
              && (stored.value.windowStart == start ==> n <= stored.value.current)
              && (stored.value.windowStart == start + l.window ==> n <= stored.value.previous))
          || (horizon.Some? && horizon.value >= start + 2 * l.window))
  }

  predicate GrantInv(g: Guard, w: World, key: RowKey, start: int) {
    var l := g.contract(key.dimension);
    Aligned(l, start) ==>
      Bounded(|Grants(g, w.calls, key, start, WindowEnd(l, start))|, l, start, StateAt(w.table, key),
        Lookup(w.horizons, key.dimension))
  }

  predicate RowInv(g: Guard, key: RowKey, row: Row) {
    var l := g.contract(key.dimension);
    Aligned(l, row.state.windowStart) && row.expiresAt == row.state.windowStart + 2 * l.window
  }

  predicate Inv(g: Guard, w: World) {
    && (forall id :: id in w.calls ==> CallInv(g, w.calls[id]))
    && (forall key :: key in w.table ==> RowInv(g, key, w.table[key]))
  }

  ghost predicate Limited(g: Guard, w: World, dimension: AttemptDimension) {
    forall key: RowKey, start :: key.dimension == dimension ==> GrantInv(g, w, key, start)
  }

  lemma GrantsUnchanged(g: Guard, calls: map<nat, Call>, id: nat, c: Call, key: RowKey, from: int, to: int)
    requires if id in calls then c == calls[id].(status := c.status) else c.seen == []
    ensures Grants(g, calls[id := c], key, from, to) == Grants(g, calls, key, from, to)
  {
    if id in calls {
      assert forall i: nat :: i < |c.seen| ==> (GrantedAt(g, c, i, key) <==> GrantedAt(g, calls[id], i, key));
    }
  }

  /** A step that only files an answer, or starts a call, grants nothing. */
  lemma FilingKeepsGrants(g: Guard, w: World, id: nat, c: Call, sink: seq<AuditEvent>, dimension: AttemptDimension)
    requires Limited(g, w, dimension)
    requires if id in w.calls then c == w.calls[id].(status := c.status) else c.seen == []
    ensures Limited(g, World(w.table, sink, w.calls[id := c], w.horizons), dimension)
  {
    var after := World(w.table, sink, w.calls[id := c], w.horizons);
    forall key: RowKey, start | key.dimension == dimension
      ensures GrantInv(g, after, key, start)
    {
      assert GrantInv(g, w, key, start);
      GrantsUnchanged(g, w.calls, id, c, key, start, WindowEnd(g.contract(dimension), start));
    }
  }

  lemma AdmissibleIsWithinLimit(l: Limit, state: AttemptState, now: int)
    requires !ExceededBy(l, state, now)
    ensures state.current <= l.limit
  {
    ChargeBounds(l, state, now);
  }

  /** Only the row just observed, and only around the instant of the call, can gain a grant. */
  lemma ObserveGrants(g: Guard, w: World, id: nat, key: RowKey, from: int, to: int)
    requires Enabled(w, Observe(id)) && |w.calls[id].seen| <= |Dimensions(w.calls[id].flow)|
    ensures var c := w.calls[id];
      var o := NextObservation(g, c);
      var before, after := Grants(g, w.calls, key, from, to), Grants(g, Apply(g, w, Observe(id)).calls, key, from, to);
      if key == o.key && from <= c.now < to && !Refuses(g, key.dimension, OutcomeOf(w.table, o), c.now)
      then after == before + {id} else after == before
  {
    var c := w.calls[id];
    var c' := Apply(g, w, Observe(id)).calls[id];
    var n := |c.seen|;
    forall i: nat | i < n
      ensures GrantedAt(g, c', i, key) <==> GrantedAt(g, c, i, key)
    {
    }
    assert Granted(g, c', key, from, to)
      <==> Granted(g, c, key, from, to) || (from <= c.now < to && GrantedAt(g, c', n, key));
  }

  /** One more count on a row, granted or not, keeps its windows bounded. */
  lemma CountKeepsBounded(
      n: nat, m: nat, l: Limit, start: int, stored: Option<AttemptState>, horizon: Option<int>, at: int, previous: int)
    requires Bounded(n, l, start, stored, horizon)
    requires (horizon.Some? ==> horizon.value < at + 2 * l.window) && previous == at - l.window
    requires stored.Some? && stored.value.windowStart < at ==> stored.value.windowStart <= previous
    requires m <= n || (m == n + 1 && start == at && Count(stored, at, previous).Counted?
                        && Count(stored, at, previous).state.current <= l.limit)
    ensures var outcome := Count(stored, at, previous);
      Bounded(m, l, start, if outcome.Counted? then Some(outcome.state) else stored, horizon)
  {
  }

  /** An observation adds at most one grant to a window of its row, and then the row's count is within the limit. */
  lemma ObservedGrant(g: Guard, w: World, id: nat, key: RowKey, start: int)
    requires Enabled(w, Observe(id)) && |w.calls[id].seen| <= |Dimensions(w.calls[id].flow)|
    requires NextObservation(g, w.calls[id]).key == key && Aligned(g.contract(key.dimension), start)
    ensures var l, o := g.contract(key.dimension), NextObservation(g, w.calls[id]);
      var outcome, to := OutcomeOf(w.table, o), WindowEnd(l, start);
      var n, m := |Grants(g, w.calls, key, start, to)|, |Grants(g, Apply(g, w, Observe(id)).calls, key, start, to)|;
      m <= n || (m == n + 1 && start == o.windowStart && outcome.Counted? && outcome.state.current <= l.limit)
  {
    var l, c := g.contract(key.dimension), w.calls[id];
    var outcome := OutcomeOf(w.table, NextObservation(g, c));
    ObserveGrants(g, w, id, key, start, WindowEnd(l, start));
    WindowStartIsTheFloor(l, c.now, WindowIndex(l, start));
    if !Refuses(g, key.dimension, outcome, c.now) {
      AdmissibleIsWithinLimit(l, outcome.state, c.now);
    }
  }

  lemma StoredApart(g: Guard, w: World, key: RowKey, now: int)
    requires Inv(g, w)
    ensures var l, stored := g.contract(key.dimension), StateAt(w.table, key);
      stored.Some? && stored.value.windowStart < WindowStart(l, now) ==>
      stored.value.windowStart <= WindowStart(l, now) - l.window
  {
    var l, stored := g.contract(key.dimension), StateAt(w.table, key);
    if stored.Some? && stored.value.windowStart < WindowStart(l, now) {
      assert RowInv(g, key, w.table[key]);
      StartIsAligned(l, now);
      AlignedApart(l, stored.value.windowStart, WindowStart(l, now));
    }
  }

  lemma ObserveKeepsGrantInv(g: Guard, w: World, id: nat, key: RowKey, start: int)
    requires Inv(g, w) && GrantInv(g, w, key, start) && Enabled(w, Observe(id))
    requires StepIsPrompt(w, Observe(id), key.dimension, g.contract(key.dimension).window)
    ensures GrantInv(g, Apply(g, w, Observe(id)), key, start)
  {
    var l, c := g.contract(key.dimension), w.calls[id];
    var o, to := NextObservation(g, c), WindowEnd(l, start);
    ObserveTouchesOneRow(w.table, o);
    if key != o.key {
      ObserveGrants(g, w, id, key, start, to);
    } else if Aligned(l, start) {
      ObservedGrant(g, w, id, key, start);
      WindowStartIsTheFloor(l, c.now, WindowIndex(l, c.now));
      StoredApart(g, w, key, c.now);
      CountKeepsBounded(
        |Grants(g, w.calls, key, start, to)|, |Grants(g, Apply(g, w, Observe(id)).calls, key, start, to)|,
        l, start, StateAt(w.table, key), Lookup(w.horizons, key.dimension), o.windowStart, o.previousWindowStart);
    }
  }

  lemma ObserveKeepsInv(g: Guard, w: World, id: nat)
    requires Inv(g, w) && Enabled(w, Observe(id))
    ensures Inv(g, Apply(g, w, Observe(id)))
  {
    var c, o := w.calls[id], NextObservation(g, w.calls[id]);
    MissingKeyIsFoundFirst(c.flow, c.keys);
    ObserveTouchesOneRow(w.table, o);
    StartIsAligned(g.contract(o.key.dimension), c.now);
  }

  /** A step that files an answer leaves what the call has seen, and so what let it through. */
  lemma FilingKeepsCall(g: Guard, before: Call, after: Call)
    requires |before.seen| <= |Dimensions(before.flow)| && after == before.(status := after.status)
    ensures AllLet(g, after) <==> AllLet(g, before)
  {
    assert forall i: nat :: i < |after.seen| ==> Lets(g, after, i) == Lets(g, before, i);
  }

  lemma StepKeepsInv(g: Guard, w: World, step: Step)
    requires Inv(g, w)
    ensures Inv(g, Apply(g, w, step))
  {
    if Enabled(w, step) && !step.Sweep? && !step.Start? {
      var before, after := w.calls[step.id], Apply(g, w, step).calls[step.id];
      MissingKeyIsFoundFirst(before.flow, before.keys);
      if step.Observe? {
        ObserveKeepsInv(g, w, step.id);
      } else {
        FilingKeepsCall(g, before, after);
      }
    }
  }

  lemma StepKeepsLimited(g: Guard, w: World, step: Step, dimension: AttemptDimension)
    requires Inv(g, w) && Limited(g, w, dimension)
    requires StepIsPrompt(w, step, dimension, g.contract(dimension).window)
    ensures Limited(g, Apply(g, w, step), dimension)
  {
    if Enabled(w, step) {
      var after := Apply(g, w, step);
      match step
      case Observe(id) =>
        forall key: RowKey, start | key.dimension == dimension
          ensures GrantInv(g, after, key, start)
        {
          ObserveKeepsGrantInv(g, w, id, key, start);
        }
      case Sweep(_, _, _, _) =>
        forall key: RowKey, start | key.dimension == dimension
          ensures GrantInv(g, after, key, start)
        {
          assert GrantInv(g, w, key, start);
        }
      case _ => FilingKeepsGrants(g, w, step.id, after.calls[step.id], after.sink, dimension);
    }
  }

  lemma {:induction false} InvHolds(g: Guard, steps: seq<Step>)
    ensures Inv(g, After(g, steps))
  {
    if steps != [] {
      InvHolds(g, steps[..|steps| - 1]);
      StepKeepsInv(g, After(g, steps[..|steps| - 1]), steps[|steps| - 1]);
    }
  }

  lemma {:induction false} LimitedHolds(g: Guard, steps: seq<Step>, dimension: AttemptDimension)
    requires Prompt(g, steps, dimension, g.contract(dimension).window)
    ensures Limited(g, After(g, steps), dimension)
  {
    if steps == [] {
      forall key, start
        ensures GrantInv(g, INIT, key, start)
      {
        assert Grants(g, INIT.calls, key, start, WindowEnd(g.contract(key.dimension), start)) == {};
      }
    } else {
      LimitedHolds(g, steps[..|steps| - 1], dimension);
      InvHolds(g, steps[..|steps| - 1]);
      StepKeepsLimited(g, After(g, steps[..|steps| - 1]), steps[|steps| - 1], dimension);
    }
  }

  // ---- Guarantees ------------------------------------------------------------------------------

  type Fold = string -> seq<Byte>

  /** An admitted call, counted on `dimension` for `identifier`, at an instant in `[from, to)`. */
  predicate AdmittedFor(
      fold: Fold, c: Call, dimension: AttemptDimension, identifier: CanonicalKey, from: int, to: int) {
    && c.status == Admitted && from <= c.now < to
    && dimension in Dimensions(c.flow)
    && KeyFor(dimension, c.keys).Some?
    && Canonical(fold, KeyFor(dimension, c.keys).value) == identifier
  }

  function AdmissionsFor(
      fold: Fold, calls: map<nat, Call>,
      dimension: AttemptDimension, identifier: CanonicalKey, from: int, to: int): set<nat> {
    set id | id in calls && AdmittedFor(fold, calls[id], dimension, identifier, from, to)
  }

  /** The guard gives every spelling of an identifier the same bucket. */
  ghost predicate Folds(g: Guard, fold: Fold) {
    forall dimension, k, j ::
      AxisOf(dimension) == KeyAxis(k) && Canonical(fold, k) == Canonical(fold, j) ==>
      g.bucket(dimension, k) == g.bucket(dimension, j)
  }

  lemma KeyedGuardFolds(ring: Keyring, contract: Contract)
    ensures Folds(KeyedGuard(ring, contract), ring.fold)
  {
    forall dimension, k, j | AxisOf(dimension) == KeyAxis(k) && Canonical(ring.fold, k) == Canonical(ring.fold, j)
      ensures Bucket(ring, dimension, k) == Bucket(ring, dimension, j)
    {
      EquivalentKeysShareABucket(ring, dimension, k, j);
    }
  }

  /** All of an identifier's admissions on a dimension are grants of one row. */
  lemma AdmissionsAreGrants(
      g: Guard, fold: Fold, w: World, dimension: AttemptDimension, identifier: CanonicalKey, from: int, to: int)
    returns (key: RowKey)
    requires Folds(g, fold) && Inv(g, w)
    ensures key.dimension == dimension
    ensures |AdmissionsFor(fold, w.calls, dimension, identifier, from, to)| <= |Grants(g, w.calls, key, from, to)|
  {
    var admitted := AdmissionsFor(fold, w.calls, dimension, identifier, from, to);
    key := RowKey(dimension, 0);
    if first :| first in admitted {
      var k := KeyFor(dimension, w.calls[first].keys).value;
      key := RowKey(dimension, g.bucket(dimension, k));
      forall id | id in admitted
        ensures Granted(g, w.calls[id], key, from, to)
      {
        var i :| 0 <= i < |Dimensions(w.calls[id].flow)| && Dimensions(w.calls[id].flow)[i] == dimension;
        assert CallInv(g, w.calls[id]) && Lets(g, w.calls[id], i);
        assert GrantedAt(g, w.calls[id], i, key);
      }
    }
    SubsetIsSmaller(admitted, Grants(g, w.calls, key, from, to));
  }

  /** The window that starts at `start` holds at most `limit` admissions of the identifier. */
  predicate ObeysLimit(
      fold: Fold, l: Limit, w: World, dimension: AttemptDimension, identifier: CanonicalKey, start: int) {
    |AdmissionsFor(fold, w.calls, dimension, identifier, start, WindowEnd(l, start))| <= l.limit
  }

  lemma LimitedRow(g: Guard, w: World, key: RowKey, l: Limit, start: int, to: int)
    requires Limited(g, w, key.dimension) && l == g.contract(key.dimension)
    requires Aligned(l, start) && to == WindowEnd(l, start)
    ensures |Grants(g, w.calls, key, start, to)| <= l.limit
  {
    assert GrantInv(g, w, key, start);
  }

  lemma LimitedObeys(
      g: Guard, fold: Fold, w: World, dimension: AttemptDimension, identifier: CanonicalKey, start: int)
    requires Folds(g, fold) && Inv(g, w) && Limited(g, w, dimension) && Aligned(g.contract(dimension), start)
    ensures ObeysLimit(fold, g.contract(dimension), w, dimension, identifier, start)
  {
    var l, to := g.contract(dimension), WindowEnd(g.contract(dimension), start);
    var key := AdmissionsAreGrants(g, fold, w, dimension, identifier, start, to);
    LimitedRow(g, w, key, l, start, to);
  }

  /**
   * However calls interleave and whatever identifiers share its bucket, an identifier gets at most
   * `limit` admissions per aligned window on each dimension, as long as no prune call of the run is more than
   * one window ahead of an instant that is still to be counted there.
   */
  lemma PerIdentifierLimit(
      ring: Keyring, contract: Contract, steps: seq<Step>,
      dimension: AttemptDimension, identifier: CanonicalKey, start: int)
    requires Prompt(KeyedGuard(ring, contract), steps, dimension, contract(dimension).window)
    requires Aligned(contract(dimension), start)
    ensures ObeysLimit(
      ring.fold, contract(dimension), After(KeyedGuard(ring, contract), steps), dimension, identifier, start)
  {
    var g := KeyedGuard(ring, contract);
    KeyedGuardFolds(ring, contract);
    InvHolds(g, steps);
    LimitedHolds(g, steps, dimension);
    LimitedObeys(g, ring.fold, After(g, steps), dimension, identifier, start);
  }

  /** An admitted call, and one refused for its counters or its audit record, has counted every dimension. */
  lemma DecidedCallsTouchEveryDimension(g: Guard, steps: seq<Step>, id: nat)
    requires id in After(g, steps).calls
    ensures var c := After(g, steps).calls[id];
      && (c.status in {Admitted, TooMany, Unrecorded} ==> |c.seen| == |Dimensions(c.flow)|)
      && (c.status == TooMany ==> exists i :: 0 <= i < |c.seen| && !Lets(g, c, i))
      && (c.status == Admitted ==> forall i :: 0 <= i < |c.seen| ==> Lets(g, c, i))
      && (c.status == Misconfigured ==> c.seen == [] && !KeysPresent(c.flow, c.keys))
      && (c.status == Unavailable ==> |c.seen| < |Dimensions(c.flow)| && KeysPresent(c.flow, c.keys))
  {
    InvHolds(g, steps);
  }

  /** The call was decided, and `e` is the record of it. */
  predicate FiledAs(c: Call, e: AuditEvent) {
    c.status in {Admitted, TooMany}
    && e == AuditEvent(c.flow, if c.status == Admitted then Permitted else Denied, c.correlation, c.now)
  }

  function DecisionsFiledAs(calls: map<nat, Call>, e: AuditEvent): set<nat> {
    set id | id in calls && FiledAs(calls[id], e)
  }

  lemma FiledDecision(calls: map<nat, Call>, id: nat, c: Call, e: AuditEvent)
    requires id in calls ==> !FiledAs(calls[id], e)
    ensures |DecisionsFiledAs(calls[id := c], e)| == |DecisionsFiledAs(calls, e)| + if FiledAs(c, e) then 1 else 0
  {
    var before, after := DecisionsFiledAs(calls, e), DecisionsFiledAs(calls[id := c], e);
    if FiledAs(c, e) {
      assert after == before + {id};
    } else {
      assert after == before;
    }
  }

  lemma StepKeepsEventCount(g: Guard, w: World, step: Step, e: AuditEvent)
    requires multiset(w.sink)[e] == |DecisionsFiledAs(w.calls, e)|
    ensures multiset(Apply(g, w, step).sink)[e] == |DecisionsFiledAs(Apply(g, w, step).calls, e)|
  {
    if Enabled(w, step) && !step.Sweep? {
      FiledDecision(w.calls, step.id, Apply(g, w, step).calls[step.id], e);
    }
  }

  /**
   * The sink holds exactly one event per decision, and it is the record of that decision: as multisets, the events
   * are the flows, verdicts, correlations and instants of the calls that were admitted or refused as too many.
   */
  lemma {:induction false} OneEventPerDecision(g: Guard, steps: seq<Step>, e: AuditEvent)
    ensures multiset(After(g, steps).sink)[e] == |DecisionsFiledAs(After(g, steps).calls, e)|
  {
    if steps == [] {
      assert DecisionsFiledAs(INIT.calls, e) == {};
    } else {
      OneEventPerDecision(g, steps[..|steps| - 1], e);
      StepKeepsEventCount(g, After(g, steps[..|steps| - 1]), steps[|steps| - 1], e);
    }
  }

  /** Whatever is attempted, and whether or not anything is ever pruned, the table stays inside its grid. */
  lemma {:induction false} TableStaysInGrid(ring: Keyring, contract: Contract, steps: seq<Step>)
    ensures forall key :: key in After(KeyedGuard(ring, contract), steps).table ==> InGrid(key, ring.buckets)
  {
    if steps != [] {
      var g := KeyedGuard(ring, contract);
      TableStaysInGrid(ring, contract, steps[..|steps| - 1]);
      var w, step := After(g, steps[..|steps| - 1]), steps[|steps| - 1];
      if step.Observe? && Enabled(w, step) {
        ObserveTouchesOneRow(w.table, NextObservation(g, w.calls[step.id]));
      }
    }
  }

  /** Unboundedly many identifiers never make more than `MaxRows` rows. */
  lemma RowBound(ring: Keyring, contract: Contract, steps: seq<Step>)
    ensures |After(KeyedGuard(ring, contract), steps).table| <= MaxRows(ring.buckets)
  {
    TableStaysInGrid(ring, contract, steps);
    GridBoundsRows(After(KeyedGuard(ring, contract), steps).table, ring.buckets);
  }

  // ---- The guard is one scheduling of the protocol ---------------------------------------------

  lemma AfterAppend(g: Guard, steps: seq<Step>, step: Step)
    ensures After(g, steps + [step]) == Apply(g, After(g, steps), step)
  {
    assert (steps + [step])[..|steps|] == steps;
  }

  function Observes(id: nat, n: nat): (steps: seq<Step>)
    ensures |steps| == n
  {
    if n == 0 then [] else Observes(id, n - 1) + [Observe(id)]
  }

  function LastStep(c: AdmitCall, id: nat): Step {
    if !KeysPresent(c.flow, c.keys) then KeyMissing(id)
    else if CallReach(c) < |Dimensions(c.flow)| then StoreFails(id)
    else if c.sinkUp then Record(id)
    else RecordFails(id)
  }

  /** How many dimensions the call counts before it ends. */
  function CountedBy(c: AdmitCall): nat {
    if KeysPresent(c.flow, c.keys) then CallReach(c) else 0
  }

  function StartOf(c: AdmitCall, id: nat): Step {
    Start(id, c.flow, c.keys, c.correlation, c.now)
  }

  /** The steps one call takes when nothing interleaves with it. */
  function SerialSteps(c: AdmitCall, id: nat): seq<Step> {
    [StartOf(c, id)] + Observes(id, CountedBy(c)) + [LastStep(c, id)]
  }

  predicate Agrees(status: Status, answer: Result<AttemptFlow, ServiceError>) {
    match answer
    case Ok(_) => status == Admitted
    case Err(Refused(TooManyAttempts)) => status in {TooMany, Unrecorded}
    case Err(Storage) => status == Unavailable
    case Err(_) => status == Misconfigured
  }

  /** The protocol from a world on. */
  function Feed(g: Guard, w: World, steps: seq<Step>): World {
    if steps == [] then w
    else Apply(g, Feed(g, w, steps[..|steps| - 1]), steps[|steps| - 1])
  }

  lemma {:induction false} AfterFeeds(g: Guard, steps: seq<Step>, more: seq<Step>)
    ensures After(g, steps + more) == Feed(g, After(g, steps), more)
  {
    if more == [] {
      assert steps + more == steps;
    } else {
      AfterFeeds(g, steps, more[..|more| - 1]);
      assert (steps + more)[..|steps + more| - 1] == steps + more[..|more| - 1];
    }
  }

  lemma FeedAppend(g: Guard, w: World, steps: seq<Step>, step: Step)
    ensures Feed(g, w, steps + [step]) == Apply(g, Feed(g, w, steps), step)
  {
    assert (steps + [step])[..|steps|] == steps;
  }

  lemma {:induction false} FeedPrepend(g: Guard, w: World, step: Step, steps: seq<Step>)
    ensures Feed(g, w, [step] + steps) == Feed(g, Apply(g, w, step), steps)
  {
    if steps == [] {
      assert [step][..0] == [];
    } else {
      FeedPrepend(g, w, step, steps[..|steps| - 1]);
      assert ([step] + steps)[..|steps|] == [step] + steps[..|steps| - 1];
    }
  }

  /** `later` is `earlier` once call `id` alone has counted `n` dimensions. */
  predicate HasCounted(g: Guard, earlier: World, later: World, id: nat, n: nat)
    requires id in earlier.calls
  {
    var c := earlier.calls[id];
    && KeysPresent(c.flow, c.keys) && n <= |Dimensions(c.flow)|
    && id in later.calls && |later.calls[id].seen| == n && later.calls[id] == c.(seen := later.calls[id].seen)
    && later.table == CountedThrough(g, earlier.table, c.flow, c.keys, c.now, n).table
    && (AllLet(g, later.calls[id]) <==> !CountedThrough(g, earlier.table, c.flow, c.keys, c.now, n).refused)
    && later.sink == earlier.sink
  }

  /** One more outcome takes the letting through from a call exactly if it refuses. */
  lemma OneMoreSeen(g: Guard, c: Call, outcome: AttemptOutcome, n: nat)
    requires n == |c.seen| < |Dimensions(c.flow)|
    ensures AllLet(g, c.(seen := c.seen + [outcome])) <==>
              AllLet(g, c) && !Refuses(g, Dimensions(c.flow)[n], outcome, c.now)
  {
    var c' := c.(seen := c.seen + [outcome]);
    assert forall i: nat :: i < n ==> (Lets(g, c', i) <==> Lets(g, c, i));
    assert Lets(g, c', n) <==> !Refuses(g, Dimensions(c.flow)[n], outcome, c.now);
  }

  lemma OneMoreCounted(g: Guard, earlier: World, w: World, id: nat, n: nat)
    requires id in earlier.calls && earlier.calls[id].status == Running
    requires HasCounted(g, earlier, w, id, n) && n < |Dimensions(earlier.calls[id].flow)|
    ensures HasCounted(g, earlier, Apply(g, w, Observe(id)), id, n + 1)
  {
    var c := w.calls[id];
    assert Enabled(w, Observe(id));
    OneMoreSeen(g, c, OutcomeOf(w.table, NextObservation(g, c)), n);
  }

  lemma {:induction false} ObservesCount(g: Guard, w: World, id: nat, n: nat)
    requires id in w.calls && w.calls[id].status == Running && w.calls[id].seen == []
    requires KeysPresent(w.calls[id].flow, w.calls[id].keys) && n <= |Dimensions(w.calls[id].flow)|
    ensures HasCounted(g, w, Feed(g, w, Observes(id, n)), id, n)
  {
    if n > 0 {
      ObservesCount(g, w, id, n - 1);
      FeedAppend(g, w, Observes(id, n - 1), Observe(id));
      OneMoreCounted(g, w, Feed(g, w, Observes(id, n - 1)), id, n - 1);
    }
  }

  /** World `w'` is what call `c`, as call number `id`, makes of `w`: same table, same audit record, same answer. */
  predicate Performs(g: Guard, w: World, w': World, c: AdmitCall, id: nat) {
    && w'.table == TableAfterCall(g, w.table, c)
    && w'.sink == w.sink + RecordOf(g, w.table, c)
    && id in w'.calls && Agrees(w'.calls[id].status, Answer(g, w.table, c))
  }

  /**
   * Every call of the guard, whatever fails during it, is a run of the protocol. So what holds of every run
   * holds of every serial use of the guard.
   */
  lemma AdmitIsARun(g: Guard, steps: seq<Step>, c: AdmitCall, id: nat)
    requires id !in After(g, steps).calls
    ensures Performs(g, After(g, steps), After(g, steps + SerialSteps(c, id)), c, id)
  {
    AfterFeeds(g, steps, SerialSteps(c, id));
    SerialPerforms(g, After(g, steps), c, id);
  }

  lemma SerialPerforms(g: Guard, w: World, c: AdmitCall, id: nat)
    requires id !in w.calls
    ensures Performs(g, w, Feed(g, w, SerialSteps(c, id)), c, id)
  {
    var rest := Observes(id, CountedBy(c)) + [LastStep(c, id)];
    FeedPrepend(g, w, StartOf(c, id), rest);
    assert [StartOf(c, id)] + rest == SerialSteps(c, id);
    RestPerforms(g, w, c, id);
  }

  lemma RestPerforms(g: Guard, w: World, c: AdmitCall, id: nat)
    requires id !in w.calls
    ensures var w' := Feed(g, Apply(g, w, StartOf(c, id)), Observes(id, CountedBy(c)) + [LastStep(c, id)]);
      Performs(g, w, w', c, id)
  {
    var begun := Apply(g, w, StartOf(c, id));
    if KeysPresent(c.flow, c.keys) {
      ObservesCount(g, begun, id, CallReach(c));
    }
    FeedAppend(g, begun, Observes(id, CountedBy(c)), LastStep(c, id));
    LastStepPerforms(g, w, begun, Feed(g, begun, Observes(id, CountedBy(c))), c, id);
  }

  lemma LastStepPerforms(g: Guard, w: World, begun: World, counted: World, c: AdmitCall, id: nat)
    requires id !in w.calls && begun == Apply(g, w, StartOf(c, id))
    requires if KeysPresent(c.flow, c.keys) then HasCounted(g, begun, counted, id, CallReach(c)) else counted == begun
    ensures Performs(g, w, Apply(g, counted, LastStep(c, id)), c, id)
  {
    MissingKeyIsFoundFirst(c.flow, c.keys);
    if !KeysPresent(c.flow, c.keys) || CallReach(c) < |Dimensions(c.flow)| {
      assert Enabled(counted, LastStep(c, id));
    } else {
      DecisionPerforms(g, w, begun, counted, c, id);
    }
  }

  lemma DecisionPerforms(g: Guard, w: World, begun: World, counted: World, c: AdmitCall, id: nat)
    requires id !in w.calls && begun == Apply(g, w, StartOf(c, id))
    requires KeysPresent(c.flow, c.keys) && CallReach(c) == |Dimensions(c.flow)|
    requires HasCounted(g, begun, counted, id, |Dimensions(c.flow)|)
    ensures Performs(g, w, Apply(g, counted, LastStep(c, id)), c, id)
  {
    assert Enabled(counted, LastStep(c, id));
  }
}

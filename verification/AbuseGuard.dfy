/** The guard: count one attempt on every dimension of a flow, then decide. */
module AbuseGuard {
  import opened Wrappers
  import opened AuthErrors
  import opened Attempts
  import opened AttemptLimits
  import opened AttemptStore
  import opened AttemptKeyring
  import opened AttemptLog

  datatype FlowKeys = FlowKeys(account: Option<string>, client: Option<Octets16>, network: Address)

  /** The guard's configuration: the bucket assignment it was given, and a limit for every dimension. */
  datatype Guard = Guard(bucket: (AttemptDimension, AttemptKey) -> nat, contract: Contract)

  /** The guard built on a keyring. Its keys always carry their dimension's axis, so no bucket is refused. */
  function KeyedGuard(ring: Keyring, contract: Contract): Guard {
    Guard((d, k) => var b := Bucket(ring, d, k); if b.Some? then b.value else 0, contract)
  }

  datatype Decision = Permitted | Denied

  datatype AuditEvent = AuditEvent(action: AttemptFlow, outcome: Decision, correlation: nat, at: int)

  function KeyFor(dimension: AttemptDimension, keys: FlowKeys): (key: Option<AttemptKey>)
    ensures key.Some? ==> KeyAxis(key.value) == AxisOf(dimension)
  {
    match AxisOf(dimension)
    case Account => if keys.account.Some? then Some(AccountKey(keys.account.value)) else None
    case Client => if keys.client.Some? then Some(ClientKey(keys.client.value)) else None
    case Network => Some(NetworkKey(keys.network))
  }

  predicate KeysPresent(flow: AttemptFlow, keys: FlowKeys) {
    forall i :: 0 <= i < |Dimensions(flow)| ==> KeyFor(Dimensions(flow)[i], keys).Some?
  }

  /** Only the first dimension of a flow can lack its key, so a missing key is found before any counting. */
  lemma MissingKeyIsFoundFirst(flow: AttemptFlow, keys: FlowKeys)
    ensures KeysPresent(flow, keys) <==> KeyFor(Dimensions(flow)[0], keys).Some?
  {
  }

  /** The row an attempt is counted on. */
  function RowFor(g: Guard, dimension: AttemptDimension, keys: FlowKeys): RowKey
    requires KeyFor(dimension, keys).Some?
  {
    RowKey(dimension, g.bucket(dimension, KeyFor(dimension, keys).value))
  }

  function ObservationFor(g: Guard, dimension: AttemptDimension, keys: FlowKeys, now: int): AttemptStore.Observation
    requires KeyFor(dimension, keys).Some?
  {
    ObservationAt(RowFor(g, dimension, keys), g.contract(dimension), now)
  }

  /** Whether one dimension refuses the attempt. */
  predicate Refuses(g: Guard, dimension: AttemptDimension, outcome: AttemptOutcome, now: int) {
    outcome.ClockRegressed? || ExceededBy(g.contract(dimension), outcome.state, now)
  }

  // ---- The decision as a function of the table ----------------------------------------------

  datatype Progress = Progress(table: Table, refused: bool)

  /** The table and the verdict once the first `n` dimensions are counted. */
  function CountedThrough(g: Guard, table: Table, flow: AttemptFlow, keys: FlowKeys, now: int, n: nat): Progress
    requires KeysPresent(flow, keys) && n <= |Dimensions(flow)|
  {
    if n == 0 then Progress(table, false)
    else
      var p := CountedThrough(g, table, flow, keys, now, n - 1);
      var d := Dimensions(flow)[n - 1];
      var o := ObservationFor(g, d, keys, now);
      Progress(AfterObserve(p.table, o), p.refused || Refuses(g, d, OutcomeOf(p.table, o), now))
  }

  /** One call of the guard, with what the environment does to it: which store calls fail, and the sink. */
  datatype AdmitCall = AdmitCall(
    flow: AttemptFlow, keys: FlowKeys, correlation: nat, now: int, outages: set<nat>, sinkUp: bool)

  /** How many dimensions a call reaches before its first store outage. */
  function Reach(outages: set<nat>, n: nat): (r: nat)
    ensures r <= n && (forall i: nat :: i < r ==> i !in outages) && (r < n ==> r in outages)
  {
    if n == 0 then 0
    else
      var r := Reach(outages, n - 1);
      if r < n - 1 || n - 1 in outages then r else n
  }

  lemma ReachIs(outages: set<nat>, n: nat, r: nat)
    requires r <= n && (forall i: nat :: i < r ==> i !in outages) && (r < n ==> r in outages)
    ensures Reach(outages, n) == r
  {
  }

  function CallReach(c: AdmitCall): nat {
    Reach(c.outages, |Dimensions(c.flow)|)
  }

  function TableAfterCall(g: Guard, table: Table, c: AdmitCall): Table {
    if !KeysPresent(c.flow, c.keys) then table
    else CountedThrough(g, table, c.flow, c.keys, c.now, CallReach(c)).table
  }

  function Answer(g: Guard, table: Table, c: AdmitCall): Result<AttemptFlow, ServiceError> {
    if !KeysPresent(c.flow, c.keys) then Err(Refused(PolicyMisconfigured))
    else if CallReach(c) < |Dimensions(c.flow)| then Err(Storage)
    else if !c.sinkUp || CountedThrough(g, table, c.flow, c.keys, c.now, CallReach(c)).refused then
      Err(Refused(TooManyAttempts))
    else Ok(c.flow)
  }

  /** `key` is the row of one of the first `n` dimensions. */
  predicate IsRowOf(g: Guard, flow: AttemptFlow, keys: FlowKeys, n: nat, key: RowKey)
    requires KeysPresent(flow, keys) && n <= |Dimensions(flow)|
  {
    exists i :: 0 <= i < n && key == RowFor(g, Dimensions(flow)[i], keys)
  }

  /** The first `n` dimensions' rows, and no others, have changed, each as if it were counted alone. */
  predicate CountedAlone(
      g: Guard, table: Table, after: Table, flow: AttemptFlow, keys: FlowKeys, now: int, n: nat)
    requires KeysPresent(flow, keys) && n <= |Dimensions(flow)|
  {
    && (forall key :: key in table.Keys + after.Keys && !IsRowOf(g, flow, keys, n, key) ==>
          Lookup(after, key) == Lookup(table, key))
    && (forall i :: 0 <= i < n ==>
          var o := ObservationFor(g, Dimensions(flow)[i], keys, now);
          Lookup(after, o.key) == Lookup(AfterObserve(table, o), o.key))
  }

  lemma NoneIsCountedAlone(g: Guard, table: Table, flow: AttemptFlow, keys: FlowKeys, now: int)
    requires KeysPresent(flow, keys)
    ensures CountedAlone(g, table, table, flow, keys, now, 0)
  {
  }

  /** The next dimension finds its row as no other dimension has touched it. */
  lemma NextIsUntouched(
      g: Guard, table: Table, before: Table, flow: AttemptFlow, keys: FlowKeys, now: int, n: nat)
    requires KeysPresent(flow, keys) && n < |Dimensions(flow)|
    requires CountedAlone(g, table, before, flow, keys, now, n)
    ensures var o := ObservationFor(g, Dimensions(flow)[n], keys, now);
      && Lookup(before, o.key) == Lookup(table, o.key) && OutcomeOf(before, o) == OutcomeOf(table, o)
  {
    RowsOfOneCallDiffer(g, flow, keys, n);
    var o := ObservationFor(g, Dimensions(flow)[n], keys, now);
    assert !IsRowOf(g, flow, keys, n, o.key);
    SameRowSameOutcome(before, table, o);
  }

  lemma OneMoreCountedAlone(
      g: Guard, table: Table, before: Table, flow: AttemptFlow, keys: FlowKeys, now: int, n: nat)
    requires KeysPresent(flow, keys) && 1 <= n <= |Dimensions(flow)|
    requires CountedAlone(g, table, before, flow, keys, now, n - 1)
    ensures var o := ObservationFor(g, Dimensions(flow)[n - 1], keys, now);
      CountedAlone(g, table, AfterObserve(before, o), flow, keys, now, n)
  {
    var o := ObservationFor(g, Dimensions(flow)[n - 1], keys, now);
    NextIsUntouched(g, table, before, flow, keys, now, n - 1);
    RowsOfOneCallDiffer(g, flow, keys, n - 1);
    assert IsRowOf(g, flow, keys, n, o.key);
    assert forall key :: IsRowOf(g, flow, keys, n - 1, key) ==> IsRowOf(g, flow, keys, n, key);
    SameRowSameOutcome(before, table, o);
  }

  /**
   * There is no early return and no order: counting through `n` dimensions changes exactly their rows,
   * each as if it were counted alone.
   */
  lemma {:induction false} DimensionsAreCountedIndependently(
      g: Guard, table: Table, flow: AttemptFlow, keys: FlowKeys, now: int, n: nat)
    requires KeysPresent(flow, keys) && n <= |Dimensions(flow)|
    ensures CountedAlone(g, table, CountedThrough(g, table, flow, keys, now, n).table, flow, keys, now, n)
  {
    if n == 0 {
      NoneIsCountedAlone(g, table, flow, keys, now);
    } else {
      DimensionsAreCountedIndependently(g, table, flow, keys, now, n - 1);
      NextIsCountedAlone(g, table, flow, keys, now, n);
    }
  }

  lemma NextIsCountedAlone(g: Guard, table: Table, flow: AttemptFlow, keys: FlowKeys, now: int, n: nat)
    requires KeysPresent(flow, keys) && 1 <= n <= |Dimensions(flow)|
    requires CountedAlone(g, table, CountedThrough(g, table, flow, keys, now, n - 1).table, flow, keys, now, n - 1)
    ensures CountedAlone(g, table, CountedThrough(g, table, flow, keys, now, n).table, flow, keys, now, n)
  {
    OneMoreCountedAlone(g, table, CountedThrough(g, table, flow, keys, now, n - 1).table, flow, keys, now, n);
  }

  lemma RowsOfOneCallDiffer(g: Guard, flow: AttemptFlow, keys: FlowKeys, j: nat)
    requires KeysPresent(flow, keys) && j < |Dimensions(flow)|
    ensures forall i :: 0 <= i < j ==> RowFor(g, Dimensions(flow)[i], keys) != RowFor(g, Dimensions(flow)[j], keys)
  {
    forall i | 0 <= i < j
      ensures Dimensions(flow)[i] != Dimensions(flow)[j]
    {
      DimensionsPartitionTheFlows(flow, flow, i, j);
    }
  }

  lemma OneMoreVerdict(g: Guard, table: Table, flow: AttemptFlow, keys: FlowKeys, now: int, n: nat)
    requires KeysPresent(flow, keys) && 1 <= n <= |Dimensions(flow)|
    ensures CountedThrough(g, table, flow, keys, now, n).refused
      <==> CountedThrough(g, table, flow, keys, now, n - 1).refused || RefusesAlone(g, table, flow, keys, now, n - 1)
  {
    DimensionsAreCountedIndependently(g, table, flow, keys, now, n - 1);
    NextIsUntouched(g, table, CountedThrough(g, table, flow, keys, now, n - 1).table, flow, keys, now, n - 1);
  }

  /** The verdict is the disjunction of what each dimension, counted alone, would say. */
  lemma {:induction false} RefusalIsTheDisjunction(
      g: Guard, table: Table, flow: AttemptFlow, keys: FlowKeys, now: int, n: nat)
    requires KeysPresent(flow, keys) && n <= |Dimensions(flow)|
    ensures CountedThrough(g, table, flow, keys, now, n).refused
      <==> exists i :: 0 <= i < n && RefusesAlone(g, table, flow, keys, now, i)
  {
    if n > 0 {
      RefusalIsTheDisjunction(g, table, flow, keys, now, n - 1);
      OneMoreVerdict(g, table, flow, keys, now, n);
    }
  }

  lemma SameRowSameOutcome(before: Table, table: Table, o: AttemptStore.Observation)
    requires Lookup(before, o.key) == Lookup(table, o.key)
    ensures OutcomeOf(before, o) == OutcomeOf(table, o)
    ensures Lookup(AfterObserve(before, o), o.key) == Lookup(AfterObserve(table, o), o.key)
    ensures forall key :: key != o.key ==> Lookup(AfterObserve(before, o), key) == Lookup(before, key)
  {
  }

  predicate RefusesAlone(g: Guard, table: Table, flow: AttemptFlow, keys: FlowKeys, now: int, i: nat)
    requires KeysPresent(flow, keys) && i < |Dimensions(flow)|
  {
    var d := Dimensions(flow)[i];
    Refuses(g, d, OutcomeOf(table, ObservationFor(g, d, keys, now)), now)
  }

  /** The audit record a call leaves: one for every decision, none when there was no decision. */
  function RecordOf(g: Guard, table: Table, c: AdmitCall): seq<AuditEvent> {
    if !KeysPresent(c.flow, c.keys) || CallReach(c) < |Dimensions(c.flow)| || !c.sinkUp then []
    else
      var refused := CountedThrough(g, table, c.flow, c.keys, c.now, CallReach(c)).refused;
      [AuditEvent(c.flow, if refused then Denied else Permitted, c.correlation, c.now)]
  }

  /** What one call leaves behind: its answer, the table, and the audit records it adds. */
  datatype Effect = Effect(answer: Result<AttemptFlow, ServiceError>, table: Table, records: seq<AuditEvent>)

  function EffectOf(g: Guard, table: Table, c: AdmitCall): Effect {
    Effect(Answer(g, table, c), TableAfterCall(g, table, c), RecordOf(g, table, c))
  }

  /** Call `c` has counted its first `i` dimensions, from `before`, and nothing has stopped it. */
  ghost predicate CountedTo(g: Guard, before: Table, c: AdmitCall, i: nat, table: Table, refused: bool) {
    && i <= |Dimensions(c.flow)| && (forall j: nat :: j < i ==> j !in c.outages)
    && if KeysPresent(c.flow, c.keys)
       then Progress(table, refused) == CountedThrough(g, before, c.flow, c.keys, c.now, i)
       else i == 0 && table == before
  }

  /** A key can only be missing before anything was counted. */
  lemma MisconfiguredEffect(g: Guard, before: Table, c: AdmitCall, i: nat, table: Table, refused: bool)
    requires CountedTo(g, before, c, i, table, refused) && i < |Dimensions(c.flow)|
    requires KeyFor(Dimensions(c.flow)[i], c.keys).None?
    ensures EffectOf(g, before, c) == Effect(Err(Refused(PolicyMisconfigured)), table, [])
  {
  }

  /** The `i`-th store call is the first that fails: what was counted before it stays counted. */
  lemma OutageEffect(g: Guard, before: Table, c: AdmitCall, i: nat, table: Table, refused: bool)
    requires CountedTo(g, before, c, i, table, refused) && i < |Dimensions(c.flow)|
    requires KeyFor(Dimensions(c.flow)[i], c.keys).Some? && i in c.outages
    ensures EffectOf(g, before, c) == Effect(Err(Storage), table, [])
  {
    MissingKeyIsFoundFirst(c.flow, c.keys);
    ReachIs(c.outages, |Dimensions(c.flow)|, i);
  }

  /** Counting the next dimension, on the table as the ones before it left it. */
  lemma CountsNext(g: Guard, before: Table, c: AdmitCall, i: nat, table: Table, refused: bool)
    requires CountedTo(g, before, c, i, table, refused) && i < |Dimensions(c.flow)|
    requires KeyFor(Dimensions(c.flow)[i], c.keys).Some? && i !in c.outages
    ensures var d := Dimensions(c.flow)[i];
      var o := ObservationFor(g, d, c.keys, c.now);
      CountedTo(
        g, before, c, i + 1, AfterObserve(table, o), refused || Refuses(g, d, OutcomeOf(table, o), c.now))
  {
    MissingKeyIsFoundFirst(c.flow, c.keys);
  }

  /** Every dimension was counted: the decision is recorded, and a record that fails refuses. */
  lemma DecidedEffect(g: Guard, before: Table, c: AdmitCall, table: Table, refused: bool)
    requires CountedTo(g, before, c, |Dimensions(c.flow)|, table, refused)
    ensures EffectOf(g, before, c) == Effect(
      if !c.sinkUp || refused then Err(Refused(TooManyAttempts)) else Ok(c.flow), table,
      if c.sinkUp then [AuditEvent(c.flow, if refused then Denied else Permitted, c.correlation, c.now)] else [])
  {
    MissingKeyIsFoundFirst(c.flow, c.keys);
    ReachIs(c.outages, |Dimensions(c.flow)|, |Dimensions(c.flow)|);
  }

  // ---- The guard itself ----------------------------------------------------------------------

  class RecordingAuditSink {
    var events: seq<AuditEvent>
    var failing: bool

    constructor ()
      ensures events == [] && !failing
    {
      events, failing := [], false;
    }

    method Record(event: AuditEvent) returns (recorded: bool)
      modifies this
      ensures failing == old(failing) && recorded == !failing
      ensures events == old(events) + if recorded then [event] else []
    {
      if failing {
        return false;
      }
      events := events + [event];
      recorded := true;
    }
  }

  class AbuseGuardService {
    const guard: Guard
    const repository: AttemptRows
    const audit: RecordingAuditSink

    constructor (guard: Guard, repository: AttemptRows, audit: RecordingAuditSink)
      ensures this.guard == guard && this.repository == repository && this.audit == audit
    {
      this.guard, this.repository, this.audit := guard, repository, audit;
    }

    /**
     * Counts every dimension before it decides. `outages` says which store calls of this admission
     * fail; the sink fails when its own flag says so.
     */
    method Admit(flow: AttemptFlow, keys: FlowKeys, correlation: nat, now: int, outages: set<nat>)
      returns (r: Result<AttemptFlow, ServiceError>)
      modifies repository, audit
      ensures var c := AdmitCall(flow, keys, correlation, now, outages, !old(audit.failing));
        var effect := EffectOf(guard, old(repository.rows), c);
        && r == effect.answer && repository.rows == effect.table
        && audit.events == old(audit.events) + effect.records && audit.failing == old(audit.failing)
    {
      var refused := false;
      var dimensions := Dimensions(flow);
      ghost var before := repository.rows;
      ghost var c := AdmitCall(flow, keys, correlation, now, outages, !audit.failing);
      ghost var effect := EffectOf(guard, before, c);
      var i := 0;
      while i < |dimensions|
        modifies repository
        invariant 0 <= i <= |dimensions|
        invariant CountedTo(guard, before, c, i, repository.rows, refused)
      {
        var dimension := dimensions[i];
        var key := KeyFor(dimension, keys);
        if key.None? {
          MisconfiguredEffect(guard, before, c, i, repository.rows, refused);
          return Err(Refused(PolicyMisconfigured));
        }
        var bucket := guard.bucket(dimension, key.value);
        var limit := guard.contract(dimension);
        if i in outages {
          OutageEffect(guard, before, c, i, repository.rows, refused);
          return Err(Storage);
        }
        CountsNext(guard, before, c, i, repository.rows, refused);
        var outcome := repository.Observe(ObservationAt(RowKey(dimension, bucket), limit, now));
        refused := refused || match outcome
          case Counted(state) => ExceededBy(limit, state, now)
          case ClockRegressed => true;
        i := i + 1;
      }
      DecidedEffect(guard, before, c, repository.rows, refused);
      var recorded := audit.Record(AuditEvent(flow, if refused then Denied else Permitted, correlation, now));
      if !recorded {
        return Err(Refused(TooManyAttempts));
      }
      if refused {
        return Err(Refused(TooManyAttempts));
      }
      return Ok(flow);
    }
  }

  // ---- Pruning ---------------------------------------------------------------------------------

  /** Deleting a row is invisible to the next observation of it exactly from the row's expiry on. */
  lemma DeletionIsInvisibleFromExpiry(l: Limit, row: Row, now: int, k: int)
    requires row.state.windowStart == k * l.window && row.state.current >= 1
    requires row.expiresAt == row.state.windowStart + l.window + l.window
    ensures OutcomeAt(l, Some(row.state), now) == OutcomeAt(l, None, now) <==> row.expiresAt <= now
  {
    WindowStartsCompare(l, k, now);
    WindowOrder(l, k + 2, now);
    assert (k + 2) * l.window == k * l.window + l.window + l.window;
  }

  /** What every observation writes. */
  predicate WellFormedRow(l: Limit, row: Row) {
    && row.state.windowStart == WindowStart(l, row.state.windowStart)
    && row.expiresAt == row.state.windowStart + l.window + l.window
    && row.state.current >= 1
  }

  predicate WellFormed(g: Guard, table: Table) {
    forall key :: key in table ==> WellFormedRow(g.contract(key.dimension), table[key])
  }

  /** For each dimension that was ever pruned, the latest instant a prune call on it was made at. */
  type Horizons = map<AttemptDimension, int>

  /** `pruned` is `full` without some rows that have expired by the latest prune call on their dimension. */
  predicate Shadows(g: Guard, pruned: Table, full: Table, horizons: Horizons) {
    && WellFormed(g, full)
    && pruned.Keys <= full.Keys
    && (forall key :: key in full ==>
          if key in pruned then pruned[key] == full[key]
          else key.dimension in horizons && full[key].expiresAt <= horizons[key.dimension])
  }

  predicate Reaches(horizons: Horizons, dimension: AttemptDimension, now: int) {
    dimension in horizons ==> horizons[dimension] <= now
  }

  lemma ObservePreservesShadow(g: Guard, pruned: Table, full: Table, horizons: Horizons, key: RowKey, now: int)
    requires Shadows(g, pruned, full, horizons) && Reaches(horizons, key.dimension, now)
    ensures var o := ObservationAt(key, g.contract(key.dimension), now);
      && OutcomeOf(pruned, o) == OutcomeOf(full, o)
      && Shadows(g, AfterObserve(pruned, o), AfterObserve(full, o), horizons)
  {
    var l := g.contract(key.dimension);
    WindowStartIsTheFloor(l, now, WindowIndex(l, now));
    WindowStartIsTheFloor(l, WindowStart(l, now), WindowIndex(l, now));
    if key in full {
      var k := WindowIndex(l, full[key].state.windowStart);
      DeletionIsInvisibleFromExpiry(l, full[key], now, k);
    }
  }

  function Later(horizons: Horizons, dimension: AttemptDimension, at: int): Horizons {
    horizons[dimension := if dimension in horizons && horizons[dimension] > at then horizons[dimension] else at]
  }

  lemma PrunePreservesShadow(
      g: Guard, pruned: Table, full: Table, horizons: Horizons,
      dimension: AttemptDimension, from: nat, count: nat, at: int)
    requires Shadows(g, pruned, full, horizons)
    ensures Shadows(g, AfterPrune(pruned, dimension, from, count, at), full, Later(horizons, dimension, at))
  {
  }

  predicate ShadowsProgress(g: Guard, pruned: Progress, full: Progress, horizons: Horizons) {
    pruned.refused == full.refused && Shadows(g, pruned.table, full.table, horizons)
  }

  lemma NextPreservesShadow(
      g: Guard, pruned: Table, full: Table, horizons: Horizons, flow: AttemptFlow, keys: FlowKeys, now: int, n: nat)
    requires KeysPresent(flow, keys) && 1 <= n <= |Dimensions(flow)|
    requires Reaches(horizons, Dimensions(flow)[n - 1], now)
    requires ShadowsProgress(g, CountedThrough(g, pruned, flow, keys, now, n - 1),
                             CountedThrough(g, full, flow, keys, now, n - 1), horizons)
    ensures ShadowsProgress(g, CountedThrough(g, pruned, flow, keys, now, n),
                            CountedThrough(g, full, flow, keys, now, n), horizons)
  {
    var p := CountedThrough(g, pruned, flow, keys, now, n - 1);
    var f := CountedThrough(g, full, flow, keys, now, n - 1);
    ObservePreservesShadow(g, p.table, f.table, horizons, RowFor(g, Dimensions(flow)[n - 1], keys), now);
  }

  lemma {:induction false} CountingPreservesShadow(
      g: Guard, pruned: Table, full: Table, horizons: Horizons, flow: AttemptFlow, keys: FlowKeys, now: int, n: nat)
    requires Shadows(g, pruned, full, horizons) && KeysPresent(flow, keys) && n <= |Dimensions(flow)|
    requires forall dimension :: dimension in Dimensions(flow) ==> Reaches(horizons, dimension, now)
    ensures ShadowsProgress(g, CountedThrough(g, pruned, flow, keys, now, n),
                            CountedThrough(g, full, flow, keys, now, n), horizons)
  {
    if n > 0 {
      CountingPreservesShadow(g, pruned, full, horizons, flow, keys, now, n - 1);
      NextPreservesShadow(g, pruned, full, horizons, flow, keys, now, n);
    }
  }

  datatype Operation =
    | Admit(call: AdmitCall)
    | Prune(dimension: AttemptDimension, from: nat, count: nat, at: int)

  /** The table after a serial history of admissions and prune calls. */
  function TableAfterAll(g: Guard, ops: seq<Operation>): Table {
    if ops == [] then map[]
    else
      var before := TableAfterAll(g, ops[..|ops| - 1]);
      match ops[|ops| - 1]
      case Admit(call) => TableAfterCall(g, before, call)
      case Prune(dimension, from, count, at) => AfterPrune(before, dimension, from, count, at)
  }

  /** The answers its admissions were given, in order. */
  function Answers(g: Guard, ops: seq<Operation>): seq<Result<AttemptFlow, ServiceError>> {
    if ops == [] then []
    else
      var prefix := ops[..|ops| - 1];
      match ops[|ops| - 1]
      case Admit(call) => Answers(g, prefix) + [Answer(g, TableAfterAll(g, prefix), call)]
      case Prune(_, _, _, _) => Answers(g, prefix)
  }

  function WithoutPrunes(ops: seq<Operation>): seq<Operation> {
    if ops == [] then []
    else
      var prefix := WithoutPrunes(ops[..|ops| - 1]);
      if ops[|ops| - 1].Admit? then prefix + [ops[|ops| - 1]] else prefix
  }

  /** No admission carries an instant before that of a prune call already made on a dimension it counts. */
  predicate PrunesComeFirst(ops: seq<Operation>) {
    forall i, j :: 0 <= i < j < |ops| && ops[i].Prune? && ops[j].Admit? ==>
      ops[i].dimension in Dimensions(ops[j].call.flow) ==> ops[i].at <= ops[j].call.now
  }

  function HorizonsOf(ops: seq<Operation>): Horizons {
    if ops == [] then map[]
    else
      var before, last := HorizonsOf(ops[..|ops| - 1]), ops[|ops| - 1];
      if last.Prune? then Later(before, last.dimension, last.at) else before
  }

  lemma {:induction false} HorizonIsReached(ops: seq<Operation>, dimension: AttemptDimension, now: int)
    requires forall i :: 0 <= i < |ops| && ops[i].Prune? && ops[i].dimension == dimension ==> ops[i].at <= now
    ensures Reaches(HorizonsOf(ops), dimension, now)
  {
    if ops != [] {
      HorizonIsReached(ops[..|ops| - 1], dimension, now);
    }
  }

  lemma {:induction false} PrunedRunShadowsFullRun(g: Guard, ops: seq<Operation>)
    requires PrunesComeFirst(ops)
    ensures Answers(g, ops) == Answers(g, WithoutPrunes(ops))
    ensures Shadows(g, TableAfterAll(g, ops), TableAfterAll(g, WithoutPrunes(ops)), HorizonsOf(ops))
  {
    if ops != [] {
      var prefix, last := ops[..|ops| - 1], ops[|ops| - 1];
      PrunedRunShadowsFullRun(g, prefix);
      var pruned, full := TableAfterAll(g, prefix), TableAfterAll(g, WithoutPrunes(prefix));
      match last
      case Admit(call) =>
        var kept := WithoutPrunes(ops);
        assert kept[..|kept| - 1] == WithoutPrunes(prefix) && kept[|kept| - 1] == last;
        forall dimension | dimension in Dimensions(call.flow)
          ensures Reaches(HorizonsOf(prefix), dimension, call.now)
        {
          HorizonIsReached(prefix, dimension, call.now);
        }
        if KeysPresent(call.flow, call.keys) {
          CountingPreservesShadow(
            g, pruned, full, HorizonsOf(prefix), call.flow, call.keys, call.now, CallReach(call));
        }
      case Prune(dimension, from, count, at) =>
        PrunePreservesShadow(g, pruned, full, HorizonsOf(prefix), dimension, from, count, at);
    }
  }

  /**
   * Pruning is invisible: as long as no admission is earlier than a prune call before it on a dimension it
   * counts, deleting expired rows at any points of a history leaves every admission with the answer it gets when
   * no row is ever deleted. The clock may otherwise run backwards.
   */
  lemma PruningIsInvisible(g: Guard, ops: seq<Operation>)
    requires PrunesComeFirst(ops)
    ensures Answers(g, ops) == Answers(g, WithoutPrunes(ops))
  {
    PrunedRunShadowsFullRun(g, ops);
  }
}

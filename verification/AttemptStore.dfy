/** Where attempt counters live: one row per (dimension, bucket), counted and pruned. */
module AttemptStore {
  import opened Wrappers
  import opened Attempts
  import opened AttemptLimits

  datatype RowKey = RowKey(dimension: AttemptDimension, bucket: nat)

  /** A stored row: the counters and the instant from which pruning may delete it. */
  datatype Row = Row(state: AttemptState, expiresAt: int)

  type Table = map<RowKey, Row>

  datatype Observation = Observation(
    key: RowKey,
    windowStart: int,
    previousWindowStart: int,
    expiresAt: int)

  datatype AttemptOutcome = Counted(state: AttemptState) | ClockRegressed

  function ObservationAt(key: RowKey, l: Limit, now: int): Observation {
    var start := WindowStart(l, now);
    Observation(key, start, start - l.window, start + l.window + l.window)
  }

  /** What one observation makes of a row's counters, if there is a row. */
  function Count(stored: Option<AttemptState>, windowStart: int, previousWindowStart: int): AttemptOutcome {
    match stored
    case None => Counted(AttemptState(1, 0, windowStart))
    case Some(s) =>
      if s.windowStart > windowStart then ClockRegressed
      else if s.windowStart == windowStart then
        Counted(s.(current := if s.current < CEILING then s.current + 1 else CEILING))
      else if s.windowStart == previousWindowStart then
        Counted(AttemptState(1, s.current, windowStart))
      else
        Counted(AttemptState(1, 0, windowStart))
  }

  function StateAt(table: Table, key: RowKey): Option<AttemptState> {
    if key in table then Some(table[key].state) else None
  }

  function OutcomeOf(table: Table, o: Observation): AttemptOutcome {
    Count(StateAt(table, o.key), o.windowStart, o.previousWindowStart)
  }

  function AfterObserve(table: Table, o: Observation): Table {
    match OutcomeOf(table, o)
    case Counted(state) => table[o.key := Row(state, o.expiresAt)]
    case ClockRegressed => table
  }

  /** Which rows one prune call deletes. */
  predicate Prunable(key: RowKey, row: Row, dimension: AttemptDimension, from: nat, count: nat, now: int) {
    key.dimension == dimension && from <= key.bucket < from + count && row.expiresAt <= now
  }

  function AfterPrune(table: Table, dimension: AttemptDimension, from: nat, count: nat, now: int): Table {
    map key | key in table && !Prunable(key, table[key], dimension, from, count, now) :: table[key]
  }

  class AttemptRows {
    var rows: Table

    constructor ()
      ensures rows == map[]
    {
      rows := map[];
    }

    /** Counts one attempt and reports the row as it now stands, in one step. */
    method Observe(o: Observation) returns (outcome: AttemptOutcome)
      modifies this
      ensures outcome == OutcomeOf(old(rows), o)
      ensures rows == AfterObserve(old(rows), o)
    {
      var state := if o.key in rows then rows[o.key].state else AttemptState(0, 0, o.windowStart);
      if state.windowStart > o.windowStart {
        return ClockRegressed;
      }
      if state.windowStart == o.windowStart {
        state := state.(current := if state.current < CEILING then state.current + 1 else CEILING);
      } else if state.windowStart == o.previousWindowStart {
        state := AttemptState(1, state.current, o.windowStart);
      } else {
        state := AttemptState(1, 0, o.windowStart);
      }
      rows := rows[o.key := Row(state, o.expiresAt)];
      outcome := Counted(state);
    }

    /** Deletes the expired rows of a half-open bucket range: at most `count` of them. */
    method Prune(dimension: AttemptDimension, from: nat, count: nat, now: int) returns (deleted: nat)
      modifies this
      ensures rows == AfterPrune(old(rows), dimension, from, count, now)
      ensures forall key :: key in rows && key.dimension == dimension && from <= key.bucket < from + count ==>
        rows[key].expiresAt > now
      ensures deleted == |old(rows)| - |rows| <= count
    {
      var doomed := set key | key in rows && Prunable(key, rows[key], dimension, from, count, now);
      PruneRemoves(rows, doomed, dimension, from, count, now);
      rows := rows - doomed;
      deleted := |doomed|;
    }
  }

  lemma PruneRemoves(table: Table, doomed: set<RowKey>, dimension: AttemptDimension, from: nat, count: nat, now: int)
    requires forall key :: key in doomed <==> key in table && Prunable(key, table[key], dimension, from, count, now)
    ensures table - doomed == AfterPrune(table, dimension, from, count, now)
    ensures |doomed| == |table| - |table - doomed| <= count
  {
    RangeHoldsAtMostCount(doomed, dimension, from, count);
    assert table.Keys == (table - doomed).Keys + doomed;
  }

  /** After a prune call the range holds no row that had expired by its instant, and every other row is as it was. */
  lemma PruneTakesExactlyTheExpired(
      table: Table, dimension: AttemptDimension, from: nat, count: nat, now: int, key: RowKey)
    ensures Lookup(AfterPrune(table, dimension, from, count, now), key)
      == if key in table && key.dimension == dimension && from <= key.bucket && key.bucket - from < count
            && now >= table[key].expiresAt
         then None else Lookup(table, key)
  {
  }

  lemma {:induction false} RangeHoldsAtMostCount(keys: set<RowKey>, dimension: AttemptDimension, from: nat, count: nat)
    requires forall key :: key in keys ==> key.dimension == dimension && from <= key.bucket < from + count
    ensures |keys| <= count
    decreases count
  {
    if count == 0 {
      if key :| key in keys { assert false; }
      assert keys == {};
    } else {
      var last := RowKey(dimension, from + count - 1);
      RangeHoldsAtMostCount(keys - {last}, dimension, from, count - 1);
      assert keys <= (keys - {last}) + {last};
    }
  }

  /** Rows are independent: an observation changes its own row and no other, and never deletes one. */
  lemma ObserveTouchesOneRow(table: Table, o: Observation)
    ensures var after := AfterObserve(table, o);
      && o.key in table.Keys + after.Keys
      && after.Keys == table.Keys + {o.key}
      && (forall key :: key in table && key != o.key ==> after[key] == table[key])
      && (OutcomeOf(table, o).ClockRegressed? <==> o.key in table && table[o.key].state.windowStart > o.windowStart)
      && (OutcomeOf(table, o).ClockRegressed? ==> after == table)
      && (OutcomeOf(table, o).Counted? ==> after[o.key] == Row(OutcomeOf(table, o).state, o.expiresAt))
  {
    assert OutcomeOf(table, o).ClockRegressed? ==> o.key in table;
  }
}

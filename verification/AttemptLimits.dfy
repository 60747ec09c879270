/** The limit of one counted dimension: epoch-anchored windows and the weighted estimate. */
module AttemptLimits {
  import opened Division
  import opened Instants

  const MAX_LIMIT: nat := 0xFFFF_FFFF
  const MIN_WINDOW := SECOND
  const MAX_WINDOW := DAY

  /** Counters saturate here (`i64::MAX`). */
  const CEILING: nat := 0x7FFF_FFFF_FFFF_FFFF

  datatype RawLimit = AttemptLimit(limit: nat, window: int)

  /** What the constructor lets through: a positive `u32`, and a window of whole seconds from one to a day's. */
  type Limit = l: RawLimit
    | 1 <= l.limit <= MAX_LIMIT && MIN_WINDOW <= l.window <= MAX_WINDOW && l.window % SECOND == 0
    witness AttemptLimit(1, SECOND)

  /** A row's counters after an observation. */
  datatype AttemptState = AttemptState(current: nat, previous: nat, windowStart: int)

  /** The window length in seconds. */
  function Seconds(l: Limit): (s: int)
    ensures s > 0 && s * SECOND == l.window
  {
    l.window / SECOND
  }

  /** One window length after `start`. */
  function WindowEnd(l: Limit, start: int): int {
    start + l.window
  }

  /** The number of the window that holds `now`; window `k` is `[k * window, (k + 1) * window)`. */
  function WindowIndex(l: Limit, now: int): int {
    now / l.window
  }

  /** Computed on the whole seconds of `now`, rounded down. */
  function WindowStart(l: Limit, now: int): (start: int)
    ensures start == WindowIndex(l, now) * l.window
  {
    NestedFloor(now, Seconds(l));
    now / SECOND / Seconds(l) * Seconds(l) * SECOND
  }

  lemma NestedFloor(now: int, window: int)
    requires 0 < window
    ensures now / (window * SECOND) == now / SECOND / window
  {
    var q := now / SECOND / window;
    QuotientBounds(now / SECOND, window);
    QuotientIs(now, window * SECOND, q);
  }

  /** `WindowStart` is the one multiple of the window at or before `now` and less than a window away. */
  lemma WindowStartIsTheFloor(l: Limit, now: int, k: int)
    ensures WindowStart(l, now) == k * l.window <==> k * l.window <= now < k * l.window + l.window
    ensures WindowStart(l, now) == WindowIndex(l, now) * l.window
  {
    QuotientBounds(now, l.window);
    if k * l.window <= now < k * l.window + l.window {
      QuotientIs(now, l.window, k);
    }
  }

  /** Where the window after window `k` starts. */
  lemma NextWindow(l: Limit, k: int)
    ensures (k + 1) * l.window == k * l.window + l.window
  {
  }

  lemma WindowOrder(l: Limit, k: int, now: int)
    ensures k * l.window <= now <==> k <= WindowIndex(l, now)
    ensures k * l.window <= WindowStart(l, now) <==> k <= WindowIndex(l, now)
  {
    QuotientBounds(now, l.window);
    var i := WindowIndex(l, now);
    if k <= i {
      MulMono(k, i, l.window);
    } else {
      MulMono(i + 1, k, l.window);
      assert (i + 1) * l.window == i * l.window + l.window;
    }
  }

  /** Whole seconds into the state's window, clamped to the window. */
  function Elapsed(l: Limit, state: AttemptState, now: int): (e: int)
    ensures 0 <= e <= Seconds(l)
  {
    var raw := WholeSeconds(now - state.windowStart);
    if raw < 0 then 0 else if raw > Seconds(l) then Seconds(l) else raw
  }

  /** The part of the previous window that is still charged. */
  function Charge(l: Limit, state: AttemptState, now: int): int {
    state.previous * (Seconds(l) - Elapsed(l, state, now)) / Seconds(l)
  }

  predicate ExceededBy(l: Limit, state: AttemptState, now: int) {
    Charge(l, state, now) + state.current > l.limit
  }

  lemma ChargeBounds(l: Limit, state: AttemptState, now: int)
    ensures 0 <= Charge(l, state, now) <= state.previous
  {
    var r := Seconds(l) - Elapsed(l, state, now);
    MulMono(0, state.previous, r);
    assert r * state.previous <= Seconds(l) * state.previous by { MulMono(r, Seconds(l), state.previous); }
    DivMono(0, state.previous * r, Seconds(l));
    DivMono(state.previous * r, state.previous * Seconds(l), Seconds(l));
    QuotientIs(state.previous * Seconds(l), Seconds(l), state.previous);
    QuotientIs(0, Seconds(l), 0);
  }

  /** The arithmetic never leaves `u128`, so saturation plays no part in the decision. */
  lemma EstimateFitsU128(l: Limit, state: AttemptState, now: int)
    requires state.previous <= CEILING && state.current <= CEILING
    ensures state.previous * (Seconds(l) - Elapsed(l, state, now)) < 0x1_0000_0000_0000_0000_0000_0000_0000_0000
    ensures Charge(l, state, now) + state.current <= 2 * CEILING
  {
    ChargeBounds(l, state, now);
    MulMono(Seconds(l) - Elapsed(l, state, now), 86_400, state.previous);
    assert (Seconds(l) - Elapsed(l, state, now)) * state.previous <= 86_400 * state.previous;
  }
}

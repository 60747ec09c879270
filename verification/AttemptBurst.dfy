/**
 * How many attempts one row can admit in any span of one window length.
 *
 * Such a span meets at most two windows. Counting elapsed time in whole seconds, and weighting the previous
 * window by floor division, lets more than `limit` through; this module gives the exact number.
 */
module AttemptBurst {
  import opened Wrappers
  import opened Division
  import opened Instants
  import opened AttemptLimits
  import opened AttemptStore
  import opened AttemptLog

  /** Whether the last of a run of observations on one row was counted and within the limit. */
  predicate LastIsAdmitted(l: Limit, times: seq<int>)
    requires times != []
  {
    var outcome := OutcomeAt(l, RowAfter(l, times[..|times| - 1]), times[|times| - 1]);
    outcome.Counted? && !ExceededBy(l, outcome.state, times[|times| - 1])
  }

  /** How many admitted attempts carry an instant in `[from, to)`. */
  function AdmittedIn(l: Limit, times: seq<int>, from: int, to: int): nat {
    if times == [] then 0
    else AdmittedIn(l, times[..|times| - 1], from, to)
         + if LastIsAdmitted(l, times) && from <= times[|times| - 1] < to then 1 else 0
  }

  /** Admissions in the half-open span of one window length that starts at `s`. */
  function BurstFrom(l: Limit, times: seq<int>, s: int): nat {
    AdmittedIn(l, times, s, WindowEnd(l, s))
  }

  /** The most a row can admit over one window length. */
  function MaxBurst(l: Limit): int {
    2 * l.limit - l.limit / Seconds(l)
  }

  lemma {:induction false} AdmittedSplits(l: Limit, times: seq<int>, from: int, mid: int, to: int)
    requires from <= mid <= to
    ensures AdmittedIn(l, times, from, to) == AdmittedIn(l, times, from, mid) + AdmittedIn(l, times, mid, to)
  {
    if times != [] {
      AdmittedSplits(l, times[..|times| - 1], from, mid, to);
    }
  }

  lemma {:induction false} AdmittedAreCounted(l: Limit, times: seq<int>, from: int, to: int, w: int)
    requires w * l.window <= from && to <= w * l.window + l.window
    ensures AdmittedIn(l, times, from, to) <= Tally(l, times, w)
  {
    if times != [] {
      AdmittedAreCounted(l, times[..|times| - 1], from, to, w);
      RowAgreesWithLog(l, times);
      WindowStartIsTheFloor(l, times[|times| - 1], w);
      if from <= times[|times| - 1] < to {
        QuotientIs(times[|times| - 1], l.window, w);
      }
    }
  }

  /** Charging at least `a` at elapsed `e` leaves room for at most `limit - a + ceil(a * e / window)`. */
  lemma ChargeArithmetic(limit: int, window: int, p: nat, a: nat, c: nat, e: int)
    requires 0 < window && a <= p && 0 <= e <= window
    requires p * (window - e) / window + c <= limit
    ensures a + c <= limit + CeilDiv(a * e, window)
  {
    MulMono(a, p, window - e);
    DivMono(a * (window - e), p * (window - e), window);
    var q := CeilDiv(a * e, window);
    var up := q * window - a * e;
    assert 0 <= up < window by { assert (q - 1) * window == q * window - window; }
    assert a * (window - e) == (a - q) * window + up;
    QuotientIs(a * (window - e), window, a - q);
  }

  /**
   * The burst at one admitted attempt: if the last attempt lies in window `k + 1`, is admitted, and is `e` whole
   * seconds past the boundary, and `a` admitted attempts of window `k` lie at or after `s`, then the admissions
   * from `s` up to any instant in window `k + 1` number at most `limit + ceil(a * e / window)`.
   */
  lemma BurstAtAttempt(l: Limit, times: seq<int>, s: int, to: int, k: int)
    requires times != [] && LastIsAdmitted(l, times)
    requires var boundary := k * l.window + l.window;
      && k * l.window <= s <= boundary <= to <= boundary + l.window
      && boundary <= times[|times| - 1] < boundary + l.window
    ensures var boundary := k * l.window + l.window;
      var a, e := AdmittedIn(l, times, s, boundary), (times[|times| - 1] - boundary) / SECOND;
      0 <= e < Seconds(l) && AdmittedIn(l, times, s, to) <= l.limit + CeilDiv(a * e, Seconds(l))
  {
    var boundary, now := k * l.window + l.window, times[|times| - 1];
    NextWindow(l, k);
    WindowStartIsTheFloor(l, now, k + 1);
    QuotientIs(now, l.window, k + 1);
    AdmittedSplits(l, times, s, boundary, to);
    AdmittedAreCounted(l, times, s, boundary, k);
    AdmittedAreCounted(l, times, boundary, to, k + 1);
    RowAgreesWithLog(l, times);
    AtMostTheLimit(l, times, s, boundary, k);
    AdmittedStateIsTheRow(l, times);
    var state, e := RowAfter(l, times).value, (now - boundary) / SECOND;
    ChargeBounds(l, state, now);
    assert Elapsed(l, state, now) == e;
    ChargeArithmetic(
      l.limit, Seconds(l), state.previous, AdmittedIn(l, times, s, boundary), AdmittedIn(l, times, boundary, to), e);
  }

  lemma AdmittedStateIsTheRow(l: Limit, times: seq<int>)
    requires times != [] && LastIsAdmitted(l, times)
    ensures RowAfter(l, times).Some? && !ExceededBy(l, RowAfter(l, times).value, times[|times| - 1])
    ensures GreatestWindow(l, times) == WindowIndex(l, times[|times| - 1])
  {
    RowAgreesWithLog(l, times);
  }

  /** Within one window a row admits at most `limit` attempts. */
  lemma {:induction false} AtMostTheLimit(l: Limit, times: seq<int>, from: int, to: int, w: int)
    requires w * l.window <= from && to <= w * l.window + l.window
    ensures AdmittedIn(l, times, from, to) <= l.limit
  {
    if times != [] {
      AtMostTheLimit(l, times[..|times| - 1], from, to, w);
      var now := times[|times| - 1];
      if LastIsAdmitted(l, times) && from <= now < to {
        QuotientIs(now, l.window, w);
        AdmittedStateIsTheRow(l, times);
        RowAgreesWithLog(l, times);
        ChargeBounds(l, RowAfter(l, times).value, now);
        AdmittedAreCounted(l, times, from, to, w);
      }
    }
  }

  /** `ceil(a * e / window)` is largest for `a == limit` in the last second of the window. */
  lemma CeilBound(limit: nat, window: int, a: nat, e: int)
    requires a <= limit && 0 <= e <= window - 1
    ensures CeilDiv(a * e, window) <= limit - limit / window
  {
    MulMono(a, limit, e);
    assert e * limit <= (window - 1) * limit by { MulMono(e, window - 1, limit); }
    assert -(a * e) >= limit - limit * window;
    DivMono(limit - limit * window, -(a * e), window);
    var f := limit / window;
    QuotientBounds(limit, window);
    assert (f - limit) * window == f * window - limit * window;
    QuotientIs(limit - limit * window, window, f - limit);
  }

  lemma MaxBurstAtLeastLimit(l: Limit)
    ensures l.limit <= MaxBurst(l) <= 2 * l.limit
    ensures MaxBurst(l) == 2 * l.limit <==> Seconds(l) > l.limit
  {
    var f := l.limit / Seconds(l);
    QuotientBounds(l.limit, Seconds(l));
    DivMono(0, l.limit, Seconds(l));
    if f > l.limit {
      MulMono(1, Seconds(l), f);
    }
    if 1 <= f {
      MulMono(1, f, Seconds(l));
    }
  }

  /** For every run of observations, with any clock, and every half-open span of one window length. */
  lemma {:induction false} BurstBound(l: Limit, times: seq<int>, s: int)
    ensures BurstFrom(l, times, s) <= MaxBurst(l)
  {
    if times == [] {
      MaxBurstAtLeastLimit(l);
    } else if LastIsAdmitted(l, times) && s <= times[|times| - 1] < s + l.window {
      BurstAtAdmission(l, times, s);
    } else {
      BurstBound(l, times[..|times| - 1], s);
    }
  }

  lemma BurstAtAdmission(l: Limit, times: seq<int>, s: int)
    requires times != [] && LastIsAdmitted(l, times) && s <= times[|times| - 1] < s + l.window
    ensures BurstFrom(l, times, s) <= MaxBurst(l)
  {
    var k := WindowIndex(l, s);
    QuotientBounds(s, l.window);
    if times[|times| - 1] < k * l.window + l.window {
      BurstWithinFirstWindow(l, times, s, k);
      MaxBurstAtLeastLimit(l);
    } else {
      BurstAcrossBoundary(l, times, s, k);
    }
  }

  /** An attempt is only admitted when no attempt of a later window was counted before it. */
  lemma NothingAdmittedLater(l: Limit, times: seq<int>, to: int, k: int)
    requires times != [] && LastIsAdmitted(l, times)
    requires k * l.window <= times[|times| - 1] < k * l.window + l.window && to <= k * l.window + 2 * l.window
    ensures AdmittedIn(l, times, k * l.window + l.window, to) == 0
  {
    NextWindow(l, k);
    QuotientIs(times[|times| - 1], l.window, k);
    AdmittedStateIsTheRow(l, times);
    NothingTalliedLater(l, times, k + 1);
    AdmittedAreCounted(l, times, (k + 1) * l.window, to, k + 1);
  }

  lemma BurstWithinFirstWindow(l: Limit, times: seq<int>, s: int, k: int)
    requires times != [] && LastIsAdmitted(l, times)
    requires k * l.window <= s <= times[|times| - 1] < k * l.window + l.window
    ensures BurstFrom(l, times, s) <= l.limit
  {
    var boundary := k * l.window + l.window;
    AdmittedSplits(l, times, s, boundary, WindowEnd(l, s));
    AtMostTheLimit(l, times, s, boundary, k);
    NothingAdmittedLater(l, times, WindowEnd(l, s), k);
  }

  lemma BurstAcrossBoundary(l: Limit, times: seq<int>, s: int, k: int)
    requires times != [] && LastIsAdmitted(l, times)
    requires k * l.window <= s < k * l.window + l.window <= times[|times| - 1] < s + l.window
    ensures BurstFrom(l, times, s) <= MaxBurst(l)
  {
    var boundary, now := k * l.window + l.window, times[|times| - 1];
    BurstAtAttempt(l, times, s, WindowEnd(l, s), k);
    AtMostTheLimit(l, times, s, boundary, k);
    CeilBound(l.limit, Seconds(l), AdmittedIn(l, times, s, boundary), (now - boundary) / SECOND);
  }

  // ---- The bound is reached ------------------------------------------------------------------

  function Repeated(t: int, n: nat): (r: seq<int>)
    ensures |r| == n
  {
    seq(n, _ => t)
  }

  /** `n` attempts at the last instant of window 0, then `m` just before that is one window length ago. */
  function Schedule(l: Limit, n: nat, m: nat): seq<int> {
    Repeated(l.window - 1, n) + Repeated(2 * l.window - 2, m)
  }

  /** Admissions in the one span of a window's length that starts at the first instant. */
  function Gained(l: Limit, n: nat, m: nat): nat {
    BurstFrom(l, Schedule(l, n, m), l.window - 1)
  }

  lemma {:induction false} FirstWaveIsAdmitted(l: Limit, n: nat)
    requires n <= l.limit
    ensures RowAfter(l, Schedule(l, n, 0)) == if n == 0 then None else Some(AttemptState(n, 0, 0))
    ensures Gained(l, n, 0) == n
  {
    if n == 0 {
      assert Schedule(l, 0, 0) == [];
    } else {
      FirstWaveIsAdmitted(l, n - 1);
      FirstWaveGains(l, n);
    }
  }

  lemma FirstWaveGains(l: Limit, n: nat)
    requires 1 <= n <= l.limit
    requires RowAfter(l, Schedule(l, n - 1, 0)) == if n == 1 then None else Some(AttemptState(n - 1, 0, 0))
    ensures RowAfter(l, Schedule(l, n, 0)) == Some(AttemptState(n, 0, 0))
    ensures Gained(l, n, 0) == Gained(l, n - 1, 0) + 1
  {
    var times, t := Schedule(l, n, 0), l.window - 1;
    assert times[..|times| - 1] == Schedule(l, n - 1, 0) && times[|times| - 1] == t;
    WindowStartIsTheFloor(l, t, 0);
    FirstWaveIsCounted(l, n, t);
    ChargeBounds(l, AttemptState(n, 0, 0), t);
  }

  lemma FirstWaveIsCounted(l: Limit, n: nat, t: int)
    requires 1 <= n <= MAX_LIMIT && WindowStart(l, t) == 0
    ensures OutcomeAt(l, if n == 1 then None else Some(AttemptState(n - 1, 0, 0)), t) == Counted(AttemptState(n, 0, 0))
  {
  }

  lemma SecondWaveStep(l: Limit, start: int, m: nat, t: int)
    requires 1 <= m <= l.limit && m <= l.limit - l.limit / Seconds(l)
    requires WindowStart(l, t) == start && t == start + l.window - 2
    ensures var before := if m == 1 then AttemptState(l.limit, 0, start - l.window)
                          else AttemptState(m - 1, l.limit, start);
      var after := AttemptState(m, l.limit, start);
      OutcomeAt(l, Some(before), t) == Counted(after) && !ExceededBy(l, after, t)
  {
    SecondWaveIsCounted(l, start, m, t);
    SecondWaveCharge(l, AttemptState(m, l.limit, start), t);
  }

  lemma SecondWaveIsCounted(l: Limit, start: int, m: nat, t: int)
    requires 1 <= m <= MAX_LIMIT && WindowStart(l, t) == start
    ensures m == 1 ==>
      OutcomeAt(l, Some(AttemptState(l.limit, 0, start - l.window)), t) == Counted(AttemptState(1, l.limit, start))
    ensures m > 1 ==>
      OutcomeAt(l, Some(AttemptState(m - 1, l.limit, start)), t) == Counted(AttemptState(m, l.limit, start))
  {
  }

  /** Only one whole second of the window remains, so one part in `window` of the previous count is charged. */
  lemma SecondWaveCharge(l: Limit, state: AttemptState, t: int)
    requires state.previous == l.limit && t == state.windowStart + l.window - 2
    ensures Charge(l, state, t) == l.limit / Seconds(l)
  {
    var remaining := Seconds(l) - Elapsed(l, state, t);
    assert remaining == 1;
    assert state.previous * remaining == l.limit;
  }

  lemma {:induction false} SecondWaveIsAdmitted(l: Limit, m: nat)
    requires m <= l.limit && m <= l.limit - l.limit / Seconds(l)
    ensures RowAfter(l, Schedule(l, l.limit, m))
      == Some(if m == 0 then AttemptState(l.limit, 0, 0) else AttemptState(m, l.limit, l.window))
    ensures Gained(l, l.limit, m) == l.limit + m
  {
    if m == 0 {
      FirstWaveIsAdmitted(l, l.limit);
    } else {
      SecondWaveIsAdmitted(l, m - 1);
      SecondWaveGains(l, m);
    }
  }

  lemma SecondWaveGains(l: Limit, m: nat)
    requires 1 <= m <= l.limit && m <= l.limit - l.limit / Seconds(l)
    requires RowAfter(l, Schedule(l, l.limit, m - 1))
      == Some(if m == 1 then AttemptState(l.limit, 0, 0) else AttemptState(m - 1, l.limit, l.window))
    ensures RowAfter(l, Schedule(l, l.limit, m)) == Some(AttemptState(m, l.limit, l.window))
    ensures Gained(l, l.limit, m) == Gained(l, l.limit, m - 1) + 1
  {
    var times, t := Schedule(l, l.limit, m), 2 * l.window - 2;
    assert times[..|times| - 1] == Schedule(l, l.limit, m - 1) && times[|times| - 1] == t;
    WindowStartIsTheFloor(l, t, 1);
    SecondWaveStep(l, l.window, m, t);
  }

  /**
   * The bound is exact: for every limit some run admits `MaxBurst` attempts in one window length.
   * So a row can admit `2 * limit` there exactly when its window has more seconds than `limit`.
   */
  lemma BurstIsReached(l: Limit)
    ensures exists times, s :: BurstFrom(l, times, s) == MaxBurst(l)
    ensures (exists times, s :: BurstFrom(l, times, s) == 2 * l.limit) <==> Seconds(l) > l.limit
  {
    MaxBurstAtLeastLimit(l);
    var second := MaxBurst(l) - l.limit;
    SecondWaveIsAdmitted(l, second);
    assert BurstFrom(l, Schedule(l, l.limit, second), l.window - 1) == MaxBurst(l);
    forall times, s
      ensures BurstFrom(l, times, s) <= MaxBurst(l)
    {
      BurstBound(l, times, s);
    }
  }

  /** The documented bound of `limit` over any span of one window length holds exactly of windows of one second. */
  lemma LimitBoundsBurstsExactlyForOneSecond(l: Limit)
    ensures (forall times, s :: BurstFrom(l, times, s) <= l.limit) <==> Seconds(l) == 1
  {
    BurstIsReached(l);
    QuotientBounds(l.limit, Seconds(l));
    if Seconds(l) == 1 {
      forall times, s
        ensures BurstFrom(l, times, s) <= l.limit
      {
        BurstBound(l, times, s);
      }
    } else {
      var times, s :| BurstFrom(l, times, s) == MaxBurst(l);
      SomeSecondsMore(l);
    }
  }

  lemma SomeSecondsMore(l: Limit)
    requires Seconds(l) > 1
    ensures MaxBurst(l) > l.limit
  {
    QuotientBounds(l.limit, Seconds(l));
    if l.limit / Seconds(l) >= l.limit {
      MulMono(l.limit, l.limit / Seconds(l), Seconds(l));
      MulMono(2, Seconds(l), l.limit);
    }
  }

  /** `c` admissions up to one at `now`, in the row's window, and `a` of the window before: at most `MaxBurst`. */
  lemma BurstAtState(l: Limit, state: AttemptState, now: int, a: nat, c: nat)
    requires state.windowStart <= now < state.windowStart + l.window && !ExceededBy(l, state, now)
    requires a <= l.limit && a <= state.previous && c <= state.current
    ensures a + c <= MaxBurst(l)
  {
    var e := (now - state.windowStart) / SECOND;
    assert Elapsed(l, state, now) == e;
    ChargeBounds(l, state, now);
    ChargeArithmetic(l.limit, Seconds(l), state.previous, a, c, e);
    CeilBound(l.limit, Seconds(l), a, e);
  }

  // ---- Exactly how many are let through ------------------------------------------------------

  /** Rounding the charge down is rounding what has faded away up. */
  lemma ChargeIsWhatHasNotFaded(window: int, p: nat, e: int)
    requires 0 < window
    ensures p * (window - e) / window == p - CeilDiv(p * e, window)
  {
    var q := CeilDiv(p * e, window);
    NextMultiple(q - 1, window);
    assert p * (window - e) == (p - q) * window + (q * window - p * e);
    QuotientIs(p * (window - e), window, p - q);
  }

  /** How many attempts at instant `t` the row still lets through, given the log of those before it. */
  function Room(l: Limit, times: seq<int>, t: int): int {
    var w := WindowIndex(l, t);
    var current, previous := Capped(Tally(l, times, w)), Capped(Tally(l, times, w - 1));
    l.limit - current - previous + CeilDiv(previous * ((t - w * l.window) / SECOND), Seconds(l))
  }

  /** The log goes on with `n` attempts at one instant. */
  function Then(times: seq<int>, t: int, n: nat): seq<int> {
    times + Repeated(t, n)
  }

  predicate NoneLater(l: Limit, times: seq<int>, t: int) {
    times != [] ==> GreatestWindow(l, times) <= WindowIndex(l, t)
  }

  lemma ThenDropsLast(times: seq<int>, t: int, n: nat)
    requires n > 0
    ensures var more := Then(times, t, n);
      more != [] && more[..|more| - 1] == Then(times, t, n - 1) && more[|more| - 1] == t
  {
  }

  lemma {:induction false} EveryRepeatIsCounted(l: Limit, times: seq<int>, t: int, n: nat)
    requires NoneLater(l, times, t)
    ensures var more, w := Then(times, t, n), WindowIndex(l, t);
      && NoneLater(l, more, t)
      && Tally(l, more, w) == Tally(l, times, w) + n && Tally(l, more, w - 1) == Tally(l, times, w - 1)
      && (n > 0 ==> GreatestWindow(l, more) == w && LastIsCounted(l, more))
  {
    if n == 0 {
      assert Then(times, t, 0) == times;
    } else {
      EveryRepeatIsCounted(l, times, t, n - 1);
      ThenDropsLast(times, t, n);
      OneMoreIsCounted(l, Then(times, t, n), t);
    }
  }

  lemma OneMoreIsCounted(l: Limit, more: seq<int>, t: int)
    requires more != [] && more[|more| - 1] == t && NoneLater(l, more[..|more| - 1], t)
    ensures var before, w := more[..|more| - 1], WindowIndex(l, t);
      && GreatestWindow(l, more) == w && LastIsCounted(l, more)
      && Tally(l, more, w) == Tally(l, before, w) + 1 && Tally(l, more, w - 1) == Tally(l, before, w - 1)
  {
  }

  lemma CountedIsAdmittedWithinLimit(l: Limit, times: seq<int>)
    requires times != [] && LastIsCounted(l, times)
    ensures RowAfter(l, times).Some?
    ensures LastIsAdmitted(l, times) <==> !ExceededBy(l, RowAfter(l, times).value, times[|times| - 1])
  {
    RowAgreesWithLog(l, times);
  }

  lemma RowStandsAt(l: Limit, times: seq<int>, w: int, c: nat, p: nat)
    requires times != [] && GreatestWindow(l, times) == w && Tally(l, times, w) == c && Tally(l, times, w - 1) == p
    ensures RowAfter(l, times) == Some(AttemptState(Capped(c), Capped(p), w * l.window))
  {
    RowAgreesWithLog(l, times);
  }

  /** The `n`-th of them is let through exactly if there was room for `n`. */
  lemma NthIsLetThrough(l: Limit, times: seq<int>, t: int, n: nat)
    requires NoneLater(l, times, t) && n > 0
    ensures LastIsAdmitted(l, Then(times, t, n)) <==> n <= Room(l, times, t)
  {
    var w := WindowIndex(l, t);
    EveryRepeatIsCounted(l, times, t, n);
    ThenDropsLast(times, t, n);
    CountedIsAdmittedWithinLimit(l, Then(times, t, n));
    RowStandsAt(l, Then(times, t, n), w, Tally(l, times, w) + n, Tally(l, times, w - 1));
    StateDecides(l, RowAfter(l, Then(times, t, n)).value, Tally(l, times, w), Tally(l, times, w - 1), n, t);
  }

  lemma StateDecides(l: Limit, state: AttemptState, c: nat, p: nat, n: nat, t: int)
    requires state == AttemptState(Capped(c + n), Capped(p), WindowIndex(l, t) * l.window) && n > 0
    ensures !ExceededBy(l, state, t) <==>
      n <= l.limit - Capped(c) - Capped(p)
           + CeilDiv(Capped(p) * ((t - WindowIndex(l, t) * l.window) / SECOND), Seconds(l))
  {
    var e := (t - state.windowStart) / SECOND;
    WindowStartIsTheFloor(l, t, WindowIndex(l, t));
    assert Elapsed(l, state, t) == e;
    ChargeIsWhatHasNotFaded(Seconds(l), Capped(p), e);
    ChargeBounds(l, state, t);
  }

  /**
   * Of `n` attempts at one instant, exactly as many are let through as there is room for; none once a later window
   * was reached. So the charge is the count of the previous window, less what has faded in the seconds elapsed.
   */
  lemma {:induction false} ExactlyTheRoomIsLetThrough(l: Limit, times: seq<int>, t: int, n: nat)
    ensures AdmittedIn(l, Then(times, t, n), t, t + 1) == AdmittedIn(l, times, t, t + 1)
      + if !NoneLater(l, times, t) || Room(l, times, t) < 0 then 0
        else if Room(l, times, t) < n then Room(l, times, t) else n
  {
    if n == 0 {
      assert Then(times, t, 0) == times;
    } else {
      ExactlyTheRoomIsLetThrough(l, times, t, n - 1);
      ThenDropsLast(times, t, n);
      if NoneLater(l, times, t) {
        NthIsLetThrough(l, times, t, n);
      } else {
        LaterWindowRefuses(l, times, t, n);
      }
    }
  }

  lemma {:induction false} LaterWindowRefuses(l: Limit, times: seq<int>, t: int, n: nat)
    requires !NoneLater(l, times, t) && n > 0
    ensures GreatestWindow(l, Then(times, t, n)) == GreatestWindow(l, times)
    ensures !LastIsAdmitted(l, Then(times, t, n))
  {
    var more := Then(times, t, n);
    ThenDropsLast(times, t, n);
    if n == 1 {
      assert Then(times, t, 0) == times;
    } else {
      LaterWindowRefuses(l, times, t, n - 1);
    }
    RowAgreesWithLog(l, more);
  }
}

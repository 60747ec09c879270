/** The two stored counters agree with the full log of attempts they replace. */
module AttemptLog {
  import opened Wrappers
  import opened Attempts
  import opened AttemptLimits
  import opened AttemptStore

  datatype Attempt = Attempt(key: RowKey, now: int)

  type Contract = AttemptDimension -> Limit

  function Observation(contract: Contract, a: Attempt): AttemptStore.Observation {
    ObservationAt(a.key, contract(a.key.dimension), a.now)
  }

  /** The table after a run of attempts on any rows, at any instants, in any order. */
  function TableAfter(contract: Contract, log: seq<Attempt>): Table {
    if log == [] then map[]
    else AfterObserve(TableAfter(contract, log[..|log| - 1]), Observation(contract, log[|log| - 1]))
  }

  /** The instants of the attempts on one row. */
  function InstantsOf(log: seq<Attempt>, key: RowKey): seq<int> {
    if log == [] then []
    else
      var before := InstantsOf(log[..|log| - 1], key);
      if log[|log| - 1].key == key then before + [log[|log| - 1].now] else before
  }

  // ---- What the counters stand for, stated on the log alone --------------------------------

  function GreatestWindow(l: Limit, times: seq<int>): int
    requires times != []
  {
    var last := WindowIndex(l, times[|times| - 1]);
    if |times| == 1 then last
    else
      var before := GreatestWindow(l, times[..|times| - 1]);
      if last > before then last else before
  }

  /** The last attempt is counted unless an earlier one already reached a later window. */
  predicate LastIsCounted(l: Limit, times: seq<int>)
    requires times != []
  {
    |times| == 1 || WindowIndex(l, times[|times| - 1]) >= GreatestWindow(l, times[..|times| - 1])
  }

  /** How many counted attempts of the log fall in window `w`. */
  function Tally(l: Limit, times: seq<int>, w: int): nat {
    if times == [] then 0
    else Tally(l, times[..|times| - 1], w)
         + if LastIsCounted(l, times) && WindowIndex(l, times[|times| - 1]) == w then 1 else 0
  }

  function Capped(n: nat): nat {
    if n < CEILING then n else CEILING
  }

  // ---- The refinement -----------------------------------------------------------------------

  /** One row's counters after a run of observations at the given instants. */
  function RowAfter(l: Limit, times: seq<int>): Option<AttemptState> {
    if times == [] then None
    else
      var before := RowAfter(l, times[..|times| - 1]);
      match OutcomeAt(l, before, times[|times| - 1])
      case Counted(state) => Some(state)
      case ClockRegressed => before
  }

  function OutcomeAt(l: Limit, stored: Option<AttemptState>, now: int): AttemptOutcome {
    Count(stored, WindowStart(l, now), WindowStart(l, now) - l.window)
  }

  lemma {:induction false} NothingTalliedLater(l: Limit, times: seq<int>, w: int)
    requires times != [] && w > GreatestWindow(l, times)
    ensures Tally(l, times, w) == 0
  {
    if |times| > 1 {
      NothingTalliedLater(l, times[..|times| - 1], w);
    }
  }

  lemma WindowStartsCompare(l: Limit, g: int, now: int)
    ensures g * l.window > WindowStart(l, now) <==> g > WindowIndex(l, now)
    ensures g * l.window == WindowStart(l, now) <==> g == WindowIndex(l, now)
    ensures g * l.window == WindowStart(l, now) - l.window <==> g == WindowIndex(l, now) - 1
    ensures (g - 1) * l.window == g * l.window - l.window
  {
    WindowOrder(l, g, now);
    WindowOrder(l, g + 1, now);
    WindowOrder(l, g + 2, now);
    assert (g + 1) * l.window == g * l.window + l.window;
    assert (g + 2) * l.window == g * l.window + 2 * l.window;
  }

  /** One more attempt, at `now`, on a row that stands in window `g` with `c` counts in it and `p` before it. */
  lemma CountOnRow(l: Limit, g: int, c: nat, p: nat, now: int)
    ensures var w := WindowIndex(l, now);
      OutcomeAt(l, Some(AttemptState(Capped(c), Capped(p), g * l.window)), now)
        == if w < g then ClockRegressed
           else if w == g then Counted(AttemptState(Capped(c + 1), Capped(p), g * l.window))
           else Counted(AttemptState(1, if w == g + 1 then Capped(c) else 0, w * l.window))
  {
    WindowStartsCompare(l, g, now);
  }

  lemma FirstAgreesWithLog(l: Limit, times: seq<int>)
    requires |times| == 1
    ensures var g := GreatestWindow(l, times);
      && RowAfter(l, times) == Some(AttemptState(1, 0, g * l.window))
      && Tally(l, times, g) == 1 && Tally(l, times, g - 1) == 0
      && OutcomeAt(l, RowAfter(l, times[..0]), times[0]).Counted? && LastIsCounted(l, times)
  {
    assert times[..0] == [];
  }

  lemma {:induction false} RowAgreesWithLog(l: Limit, times: seq<int>)
    requires times != []
    ensures var g := GreatestWindow(l, times);
      RowAfter(l, times)
        == Some(AttemptState(Capped(Tally(l, times, g)), Capped(Tally(l, times, g - 1)), g * l.window))
    ensures OutcomeAt(l, RowAfter(l, times[..|times| - 1]), times[|times| - 1]).Counted?
        <==> LastIsCounted(l, times)
  {
    var before, now := times[..|times| - 1], times[|times| - 1];
    if |times| == 1 {
      FirstAgreesWithLog(l, times);
    } else {
      RowAgreesWithLog(l, before);
      var w, g := WindowIndex(l, now), GreatestWindow(l, before);
      CountOnRow(l, g, Tally(l, before, g), Tally(l, before, g - 1), now);
      if w > g {
        NothingTalliedLater(l, before, w);
        if w > g + 1 {
          NothingTalliedLater(l, before, w - 1);
        }
      }
    }
  }

  lemma {:induction false} RowsAreIndependent(contract: Contract, log: seq<Attempt>, key: RowKey)
    ensures StateAt(TableAfter(contract, log), key) == RowAfter(contract(key.dimension), InstantsOf(log, key))
  {
    if log != [] {
      var before, last := log[..|log| - 1], log[|log| - 1];
      RowsAreIndependent(contract, before, key);
      ObserveTouchesOneRow(TableAfter(contract, before), Observation(contract, last));
      if last.key == key {
        var times := InstantsOf(log, key);
        assert times[..|times| - 1] == InstantsOf(before, key);
      }
    }
  }

  /**
   * Log refinement. After any run of observations, with any clock, a row exists exactly when its key
   * was attempted; its window is the greatest any attempt reached; and its two counters are the
   * numbers of counted attempts in that window and in the one just before it.
   */
  lemma LogRefinement(contract: Contract, log: seq<Attempt>, key: RowKey)
    ensures var l, times := contract(key.dimension), InstantsOf(log, key);
      && (key in TableAfter(contract, log) <==> times != [])
      && (times != [] ==>
            var g := GreatestWindow(l, times);
            TableAfter(contract, log)[key].state
              == AttemptState(Capped(Tally(l, times, g)), Capped(Tally(l, times, g - 1)), g * l.window))
  {
    RowsAreIndependent(contract, log, key);
    if InstantsOf(log, key) != [] {
      RowAgreesWithLog(contract(key.dimension), InstantsOf(log, key));
    }
  }

  /** A call is answered `ClockRegressed` exactly when its row already saw a later window, and then changes nothing. */
  lemma RegressionRefinement(contract: Contract, log: seq<Attempt>, next: Attempt)
    ensures var l, times := contract(next.key.dimension), InstantsOf(log, next.key);
      var regressed := OutcomeOf(TableAfter(contract, log), Observation(contract, next)).ClockRegressed?;
      && (regressed <==> times != [] && WindowIndex(l, next.now) < GreatestWindow(l, times))
      && (regressed ==> TableAfter(contract, log + [next]) == TableAfter(contract, log))
  {
    var l, times := contract(next.key.dimension), InstantsOf(log, next.key);
    RowsAreIndependent(contract, log, next.key);
    RowAgreesWithLog(l, times + [next.now]);
    assert (times + [next.now])[..|times|] == times;
    assert (log + [next])[..|log|] == log;
  }
}

/** What one call of the guard answers and records, on the stored numbers; and that strangers need not matter. */
module AdmitAnswers {
  import opened Wrappers
  import opened Bytes
  import opened Instants
  import opened AuthErrors
  import opened Attempts
  import opened AttemptLimits
  import opened AttemptStore
  import opened AttemptKeyring
  import opened AttemptLog
  import opened AbuseGuard

  // ---- Exactly which answer --------------------------------------------------------------------

  predicate CountsAccounts(flow: AttemptFlow) {
    flow in {Register, LogIn, VerificationResend, ForgotPassword}
  }

  predicate LacksAKey(c: AdmitCall) {
    || (CountsAccounts(c.flow) && c.keys.account.None?)
    || (c.flow == TokenRefresh && c.keys.client.None?)
  }

  predicate MeetsAnOutage(c: AdmitCall) {
    exists i :: 0 <= i < |Dimensions(c.flow)| && i in c.outages
  }

  /**
   * One more attempt, in the window that starts at `start`, on a row with these counters, is within the limit: the
   * attempts of that window, and what the window before still weighs after the whole seconds elapsed.
   */
  predicate WithinLimit(l: Limit, start: int, row: Option<Row>, now: int) {
    var remaining := Seconds(l) - (now - start) / SECOND;
    match row
    case None => true
    case Some(row) =>
      var s := row.state;
      if s.windowStart > start then false
      else if s.windowStart == start then
        (if s.current < CEILING then s.current + 1 else CEILING) + s.previous * remaining / Seconds(l) <= l.limit
      else if s.windowStart == start - l.window then 1 + s.current * remaining / Seconds(l) <= l.limit
      else true
  }

  /** Dimension `i` of the call has the attempt within its limit, on the table as the call found it. */
  predicate LetsThrough(g: Guard, table: Table, c: AdmitCall, i: nat)
    requires i < |Dimensions(c.flow)| && KeyFor(Dimensions(c.flow)[i], c.keys).Some?
  {
    var d := Dimensions(c.flow)[i];
    var l := g.contract(d);
    WithinLimit(l, c.now / l.window * l.window, Lookup(table, RowFor(g, d, c.keys)), c.now)
  }

  lemma LacksAKeyExactly(c: AdmitCall)
    ensures KeysPresent(c.flow, c.keys) <==> !LacksAKey(c)
  {
    MissingKeyIsFoundFirst(c.flow, c.keys);
  }

  lemma OutageIsReached(c: AdmitCall)
    ensures CallReach(c) < |Dimensions(c.flow)| <==> MeetsAnOutage(c)
  {
  }

  lemma NothingPreviousIsCharged(l: Limit, state: AttemptState, now: int)
    requires state.previous == 0
    ensures Charge(l, state, now) == 0
  {
    ChargeBounds(l, state, now);
  }

  lemma RefusesAloneExactly(l: Limit, key: RowKey, table: Table, now: int)
    ensures var o := ObservationAt(key, l, now);
      WithinLimit(l, now / l.window * l.window, Lookup(table, key), now) <==>
      OutcomeOf(table, o).Counted? && !ExceededBy(l, OutcomeOf(table, o).state, now)
  {
    var o := ObservationAt(key, l, now);
    WindowStartIsTheFloor(l, now, WindowIndex(l, now));
    if OutcomeOf(table, o).Counted? {
      var state := OutcomeOf(table, o).state;
      assert Elapsed(l, state, now) == (now - o.windowStart) / SECOND;
      if state.previous == 0 {
        NothingPreviousIsCharged(l, state, now);
      }
    }
  }

  lemma LetsThroughExactly(g: Guard, table: Table, c: AdmitCall, i: nat)
    requires KeysPresent(c.flow, c.keys) && i < |Dimensions(c.flow)|
    ensures LetsThrough(g, table, c, i) <==> !RefusesAlone(g, table, c.flow, c.keys, c.now, i)
  {
    var d := Dimensions(c.flow)[i];
    RefusesAloneExactly(g.contract(d), RowFor(g, d, c.keys), table, c.now);
  }

  predicate AllLetThrough(g: Guard, table: Table, c: AdmitCall)
    requires !LacksAKey(c)
  {
    LacksAKeyExactly(c);
    forall i :: 0 <= i < |Dimensions(c.flow)| ==> LetsThrough(g, table, c, i)
  }

  lemma VerdictIsExactly(g: Guard, table: Table, c: AdmitCall)
    requires !LacksAKey(c) && !MeetsAnOutage(c)
    ensures KeysPresent(c.flow, c.keys) && CallReach(c) == |Dimensions(c.flow)|
    ensures AllLetThrough(g, table, c) <==>
      !CountedThrough(g, table, c.flow, c.keys, c.now, |Dimensions(c.flow)|).refused
  {
    LacksAKeyExactly(c);
    OutageIsReached(c);
    RefusalIsTheDisjunction(g, table, c.flow, c.keys, c.now, |Dimensions(c.flow)|);
    forall i | 0 <= i < |Dimensions(c.flow)|
      ensures LetsThrough(g, table, c, i) <==> !RefusesAlone(g, table, c.flow, c.keys, c.now, i)
    {
      LetsThroughExactly(g, table, c, i);
    }
  }

  /**
   * A call is misconfigured exactly when its flow counts an account or a client it did not bring; it fails exactly
   * when a store call of a dimension it counts fails; and it is admitted exactly when neither happens, its record is
   * kept, and every dimension has the attempt within its limit. Only an admission and a refusal are recorded.
   */
  lemma AnswerIsExactly(g: Guard, table: Table, c: AdmitCall)
    ensures Answer(g, table, c)
      == if LacksAKey(c) then Err(Refused(PolicyMisconfigured))
         else if MeetsAnOutage(c) then Err(Storage)
         else if c.sinkUp && AllLetThrough(g, table, c) then Ok(c.flow)
         else Err(Refused(TooManyAttempts))
    ensures RecordOf(g, table, c)
      == if LacksAKey(c) || MeetsAnOutage(c) || !c.sinkUp then []
         else [AuditEvent(c.flow, if AllLetThrough(g, table, c) then Permitted else Denied, c.correlation, c.now)]
  {
    LacksAKeyExactly(c);
    OutageIsReached(c);
    if !LacksAKey(c) && !MeetsAnOutage(c) {
      VerdictIsExactly(g, table, c);
    }
  }

  // ---- Strangers -------------------------------------------------------------------------------

  /** The two calls are of different flows, or share neither a network nor the account or client their flow counts. */
  predicate AreStrangers(fold: string -> seq<Byte>, a: AdmitCall, b: AdmitCall) {
    var k, j := a.keys, b.keys;
    a.flow == b.flow ==>
      && !SameNetwork(k.network, j.network)
      && (CountsAccounts(a.flow) && k.account.Some? && j.account.Some? ==>
            fold(k.account.value) != fold(j.account.value))
      && (a.flow == TokenRefresh && k.client.Some? && j.client.Some? ==> k.client.value != j.client.value)
  }

  predicate OnlyStrangers(fold: string -> seq<Byte>, ops: seq<Operation>, c: AdmitCall) {
    forall i :: 0 <= i < |ops| && ops[i].Admit? ==> AreStrangers(fold, ops[i].call, c)
  }

  /** `input` is what a digest is taken of for one of the call's keys. */
  predicate IsInputOf(fold: string -> seq<Byte>, c: AdmitCall, input: seq<int>) {
    exists i :: 0 <= i < |Dimensions(c.flow)| && IsInputAt(fold, c, i, input)
  }

  predicate IsInputAt(fold: string -> seq<Byte>, c: AdmitCall, i: nat, input: seq<int>)
    requires i < |Dimensions(c.flow)|
  {
    var key := KeyFor(Dimensions(c.flow)[i], c.keys);
    key.Some? && input == MacInput(fold, Dimensions(c.flow)[i], key.value)
  }

  /** Digests that give the call's own keys buckets that no other key has. */
  function RingApart(fold: string -> seq<Byte>, buckets: BucketCount, c: AdmitCall): Keyring {
    Keyring(fold, input => if IsInputOf(fold, c, input) then 1 else 0, buckets)
  }

  lemma StrangersInputsDiffer(fold: string -> seq<Byte>, a: AdmitCall, c: AdmitCall, j: nat, i: nat)
    requires AreStrangers(fold, a, c) && j < |Dimensions(a.flow)| && i < |Dimensions(c.flow)|
    requires KeyFor(Dimensions(a.flow)[j], a.keys).Some?
    ensures !IsInputAt(fold, c, i, MacInput(fold, Dimensions(a.flow)[j], KeyFor(Dimensions(a.flow)[j], a.keys).value))
  {
    var d, e, k := Dimensions(a.flow)[j], Dimensions(c.flow)[i], KeyFor(Dimensions(a.flow)[j], a.keys).value;
    if KeyFor(e, c.keys).Some? {
      var own := KeyFor(e, c.keys).value;
      DimensionsPartitionTheFlows(a.flow, c.flow, j, i);
      MacInputIsInjective(fold, d, k, e, own);
      CanonicalIsTheParty(fold, k, own);
    }
  }

  lemma StrangersRowsDiffer(
      fold: string -> seq<Byte>, buckets: BucketCount, contract: Contract, a: AdmitCall, c: AdmitCall, j: nat, i: nat)
    requires AreStrangers(fold, a, c) && j < |Dimensions(a.flow)| && i < |Dimensions(c.flow)|
    requires KeyFor(Dimensions(a.flow)[j], a.keys).Some? && KeyFor(Dimensions(c.flow)[i], c.keys).Some?
    ensures var g := KeyedGuard(RingApart(fold, buckets, c), contract);
      RowFor(g, Dimensions(a.flow)[j], a.keys) != RowFor(g, Dimensions(c.flow)[i], c.keys)
  {
    var ring, d, e := RingApart(fold, buckets, c), Dimensions(a.flow)[j], Dimensions(c.flow)[i];
    var k, own := KeyFor(d, a.keys).value, KeyFor(e, c.keys).value;
    forall n | 0 <= n < |Dimensions(c.flow)|
      ensures !IsInputAt(fold, c, n, MacInput(fold, d, k))
    {
      StrangersInputsDiffer(fold, a, c, j, n);
    }
    assert IsInputAt(fold, c, i, MacInput(fold, e, own));
    SmallHeadIsTheBucket(ring, d, k, 0);
    SmallHeadIsTheBucket(ring, e, own, 1);
  }

  /** None of the call's rows is in the table. */
  predicate Untouched(g: Guard, table: Table, c: AdmitCall) {
    forall i :: 0 <= i < |Dimensions(c.flow)| && KeyFor(Dimensions(c.flow)[i], c.keys).Some? ==>
      RowFor(g, Dimensions(c.flow)[i], c.keys) !in table
  }

  lemma StrangerLeavesUntouched(
      fold: string -> seq<Byte>, buckets: BucketCount, contract: Contract, table: Table, a: AdmitCall, c: AdmitCall)
    requires AreStrangers(fold, a, c) && Untouched(KeyedGuard(RingApart(fold, buckets, c), contract), table, c)
    ensures var g := KeyedGuard(RingApart(fold, buckets, c), contract); Untouched(g, TableAfterCall(g, table, a), c)
  {
    var g := KeyedGuard(RingApart(fold, buckets, c), contract);
    if KeysPresent(a.flow, a.keys) {
      DimensionsAreCountedIndependently(g, table, a.flow, a.keys, a.now, CallReach(a));
      forall i | 0 <= i < |Dimensions(c.flow)| && KeyFor(Dimensions(c.flow)[i], c.keys).Some?
        ensures !IsRowOf(g, a.flow, a.keys, CallReach(a), RowFor(g, Dimensions(c.flow)[i], c.keys))
      {
        forall j | 0 <= j < CallReach(a)
          ensures RowFor(g, Dimensions(a.flow)[j], a.keys) != RowFor(g, Dimensions(c.flow)[i], c.keys)
        {
          StrangersRowsDiffer(fold, buckets, contract, a, c, j, i);
        }
      }
    }
  }

  lemma {:induction false} StrangersLeaveUntouched(
      fold: string -> seq<Byte>, buckets: BucketCount, contract: Contract, ops: seq<Operation>, c: AdmitCall)
    requires OnlyStrangers(fold, ops, c)
    ensures var g := KeyedGuard(RingApart(fold, buckets, c), contract); Untouched(g, TableAfterAll(g, ops), c)
  {
    if ops != [] {
      StrangersLeaveUntouched(fold, buckets, contract, ops[..|ops| - 1], c);
      if ops[|ops| - 1].Admit? {
        var g := KeyedGuard(RingApart(fold, buckets, c), contract);
        StrangerLeavesUntouched(fold, buckets, contract, TableAfterAll(g, ops[..|ops| - 1]), ops[|ops| - 1].call, c);
      }
    }
  }

  /** A call none of whose rows is in the table is answered as the first call ever. */
  lemma UntouchedIsAnsweredAsFirst(g: Guard, table: Table, c: AdmitCall)
    requires Untouched(g, table, c)
    ensures Answer(g, table, c) == Answer(g, map[], c)
  {
    AnswerIsExactly(g, table, c);
    AnswerIsExactly(g, map[], c);
    if !LacksAKey(c) {
      LacksAKeyExactly(c);
      forall i | 0 <= i < |Dimensions(c.flow)|
        ensures LetsThrough(g, table, c, i) && LetsThrough(g, map[], c, i)
      {
      }
    }
  }

  /**
   * No caller is fated to share a counter with strangers: for every call there are digests under which its answer
   * is the same after any history of other parties' calls and of prune calls as if it were the first call ever.
   */
  lemma StrangersNeedNotMatter(
      fold: string -> seq<Byte>, buckets: BucketCount, contract: Contract, c: AdmitCall)
    ensures exists head: seq<int> -> Word ::
      var g := KeyedGuard(Keyring(fold, head, buckets), contract);
      forall ops :: OnlyStrangers(fold, ops, c) ==> Answer(g, TableAfterAll(g, ops), c) == Answer(g, map[], c)
  {
    var ring := RingApart(fold, buckets, c);
    var g := KeyedGuard(ring, contract);
    assert ring == Keyring(fold, ring.head, buckets);
    forall ops | OnlyStrangers(fold, ops, c)
      ensures Answer(g, TableAfterAll(g, ops), c) == Answer(g, map[], c)
    {
      StrangersLeaveUntouched(fold, buckets, contract, ops, c);
      UntouchedIsAnsweredAsFirst(g, TableAfterAll(g, ops), c);
    }
  }
}

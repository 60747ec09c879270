# A verified model of `renvor-auth`

This project models the stateful core of the `renvor-auth` crate in Dafny and proves what the crate
relies on it for. Check it with `dafny verify dfyconfig.toml`.

| part | modules | what is proved about it |
|---|---|---|
| Abuse counters | `Attempts`, `AttemptLimits`, `AttemptStore`, `AttemptLog`, `AttemptBurst`, `AttemptKeyring`, `AbuseGuard`, `AdmitAnswers`, `AdmitProtocol`, `AdmitPruning`, `AdmitSweeps`, `AdmitBurst` | two counters per row agree with the full log of attempts; exactly how many attempts a row lets through and which answer a call gets; strangers need not share a counter; the exact burst a row can admit, for every identifier under any interleaving; the bucket grid is unbiased and bounds the rows; pruning that lags behind changes no answer; the limit per identifier under any interleaving; exactly how far ahead pruning may run for the limit, for the burst, for twice the limit and to change no answer |
| Refresh rotation | `RefreshStore`, `RefreshChain`, `RefreshRotation`, `RefreshProtocol`, `RefreshAnswers`, `RefreshLegacy` | every family is a linear chain in every reachable state of any number of clients; each token rotates once; exactly which answer a rotation gets and how long what it hands out lasts; the optimistic read is safe; rotation is all or nothing; the protocol it replaced is not safe |
| Accounts and mailed tokens | `Accounts`, `AuthenticationService`, `AccountHistory`, `AccountProtocol`, `AccountOrders`, `TokenHistory`, `TokenAcceptance`, `AccountAnswers`, `ResendProtocol` | login refines a map from address to password, and exactly when it still does with registrations and resets in flight together, by the order they began in or by any order real time allows; tokens are authentic and accepted once, also under concurrent presentations; exactly when a mailed token is accepted, and which answer every call gets, from the calls of a history alone; the exact number of live tokens under concurrent resends |
| Encodings | `Hex`, `Opaque`, `Correlation`, `Csrf`, `Cookie` | one accepted spelling per value; CSRF acceptance is exactly issuance; cookie reading does not depend on order |

Objects the crate updates in place are classes (`AttemptRows`, `RecordingAuditSink`, `AbuseGuardService`,
`RefreshRows`, `RefreshService`, `Users`, `Credentials`, `Tokens`, `MailPort`, `Service`); their methods keep
the source's loops and order of effects, and their contracts give the whole new state as a function of the old.
The concurrent parts are state machines: a step is one port call, an arbitrary scheduler picks the steps, a step
that is not enabled changes nothing. `AdmitIsARun`, `RotateIsARun`, `SendIsARun`, `RegisterIsARun` and `ResetIsARun`
tie the serial operations to those machines.

## How it is modelled

- Instants and durations are `int` nanoseconds, the resolution of the clock, and instants are representable. Windows
  are whole seconds, and elapsed time is counted in whole seconds, as in the source.
- Text is a sequence with one character per UTF-8 octet, so lengths are octet lengths; the one exception is
  what `normalise` returns, which has one character per code point, so password length counts code points. Trimming
  and lower-casing an account identifier is the function `fold`.
- Byte shifts and masks are written as division, remainder and addition; the bucket mask is a bitwise conjunction
  defined bit by bit.
- HMAC is a function from messages to 32 bytes, and no theorem needs it to be injective. SHA-256 under a credential
  kind is an ideal digest: it is equal only for equal kinds and bytes. A password hash is a pair of functions with
  `Ideal` as a hypothesis where it is used: a candidate verifies against a hash exactly when the normal forms agree.
- Entropy is an `Option` argument. Where the crate relies on secrets not repeating, that is a guard on the step
  (`RefreshProtocol`) or a hypothesis (`FreshSecrets`). User identities are handed out in order.
- A store failure rolls its call back. Which calls fail is an argument: `outages` for the guard, `readUp` and
  `writeUp` for rotation, and `up`, the number of calls that succeed, for the account operations.
- `AttemptRows.Prune` follows the port's contract and the SQL adapter's statement
  (`crates/renvor-sqlx/src/auth.rs:734-761`), because the in-memory store's own `prune` deletes nothing. Refresh rows
  carry `replaced_by`, which the port's contract asks for and the SQL adapter writes.
- A login for an unknown address looks up whatever identity the entropy fill returns, including a real one.
- `Admitted` is modelled by the flow it names. Signing an access token may fail; an access token is the user and
  the scopes it was issued for.

## Where the code and its documentation differ

Paths here are under `crates/renvor-auth/src/`. The model follows the code.

- `exceeded_by` is documented as bounding a burst at roughly `limit` over any span of one window
  (`abuse.rs:622-625`). Instants carry fractions of a second and elapsed time is truncated to whole seconds
  (`abuse.rs:631-633`), so the arithmetic allows `2 * limit - floor(limit / window)`, with the window in seconds, and
  `BurstIsReached` gives the run. Every shipped window has more seconds than its limit (`abuse.rs:679-701`), so for
  the shipped limits that is `2 * limit` exactly. The documented bound holds exactly of windows of one second.
- The bucket ceiling is documented as allowing ten times 2^20 rows (`abuse.rs:334`). There are twelve dimensions,
  and `MaxRows` is twelve times the count.
- Flows are counted as six in several comments (`abuse.rs:95`); there are seven, as the enumeration itself explains.
- "At most one token per purpose per account is ever live" (`service.rs:386-389`, `repository.rs:195-199`) holds of
  serial calls. Sweeping and issuing are two store calls, so `k` workers can leave `k` live tokens, and no more.
- The documentation of `prune` (`abuse.rs:774-784`) puts no condition on the instant it is called with, and the row
  bound needs none. The guarantees of the counters do, each on the prune calls of its own dimension: the limit per
  aligned window, and twice the limit over any span of a window length, hold of all runs exactly when no prune call is
  more than one window ahead of an attempt still to be counted; the burst bound exactly when none is more than one
  nanosecond ahead, unless it is twice the limit anyway. While no attempt is counted for an instant before that of an
  earlier prune call, pruning changes nothing at all; a single nanosecond ahead, it can.
- Registration and reset are each two store calls (`service.rs:254-261`, `service.rs:539-556`), and nothing orders the
  second calls of two operations on one account. A reset that starts and finishes between the two calls of the
  registration reports success and is then overwritten (`RegistrationOverwritesReset`). Of two resets in flight
  together either password may be the one that stays, so only a registration can leave what no order of the operations
  explains (`AccountOrders`).

## Model

| member | source | states |
|---|---|---|
| `AttemptLimits.WindowStart` | crates/renvor-auth/src/abuse.rs:607-616 | Computed on whole seconds rounded down, it is the window's number times the window, for every instant with fractions of a second |
| `AttemptLimits.WindowStartIsTheFloor` | crates/renvor-auth/src/abuse.rs:607-616 | The window start of an instant is the one multiple of the window at or before it and less than one window away, also before 1970 |
| `AttemptLimits.WindowOrder` | crates/renvor-auth/src/abuse.rs:607-616 | Comparing an instant, or its window start, with a window boundary is comparing window numbers |
| `AttemptLimits.ChargeBounds` | crates/renvor-auth/src/abuse.rs:629-640 | The charge for the previous window lies between nothing and that window's whole count, for every clock |
| `AttemptLimits.EstimateFitsU128` | crates/renvor-auth/src/abuse.rs:627-640 | For counters up to the ceiling the product stays below 2^128, so the saturating operations never change a decision |
| `AttemptStore.AttemptRows.Observe` | crates/renvor-auth/src/abuse.rs:1156-1192 | One observation, in place: outcome and new table are those of the specification functions |
| `AttemptStore.AttemptRows.Prune` | crates/renvor-auth/src/abuse.rs:774-791 | Pruning deletes exactly the expired rows of the half-open bucket range, reports how many, and never more than the range is long |
| `AttemptStore.RangeHoldsAtMostCount` | crates/renvor-auth/src/abuse.rs:774-778 | A bucket range of one dimension holds at most `count` rows |
| `AttemptStore.PruneTakesExactlyTheExpired` | crates/renvor-auth/src/abuse.rs:774-791 | Row by row: a prune call deletes those of its dimension and range that have expired by its instant, and leaves every other as it was |
| `AttemptStore.ObserveTouchesOneRow` | crates/renvor-auth/src/abuse.rs:756-772 | An observation changes its own row and no other, deletes none, and writes nothing exactly when the stored window is later |
| `AttemptLog.LogRefinement` | crates/renvor-auth/src/abuse.rs:1170-1192 | After any run of observations with any clock, a row exists exactly if it was attempted; its window is the greatest attempted and its counters are the (capped) numbers of counted attempts there and in the window just before |
| `AttemptLog.RegressionRefinement` | crates/renvor-auth/src/abuse.rs:743-752 | An attempt is answered `ClockRegressed` exactly when some earlier attempt on its row reached a later window, and then the table is unchanged |
| `AttemptLog.RowsAreIndependent` | crates/renvor-auth/src/abuse.rs:1171-1176 | In a table shared by all rows, each row reads as if only the attempts on it had been made |
| `AttemptLog.RowAgreesWithLog` | crates/renvor-auth/src/abuse.rs:1177-1191 | The refinement for one row, and: the store counts an attempt exactly when the log does |
| `AttemptBurst.BurstAtAttempt` | crates/renvor-auth/src/abuse.rs:618-640 | If the last attempt is admitted `e` whole seconds into window `k + 1` and `a` admitted attempts of window `k` are in the span, the span holds at most `limit + ceil(a * e / window)` admissions |
| `AttemptBurst.BurstBound` | crates/renvor-auth/src/abuse.rs:618-640 | For every run, every clock and every half-open span of one window length, at instants with fractions of a second: at most `MaxBurst` admissions, `2 * limit - floor(limit / window)` with the window in seconds |
| `AttemptBurst.BurstIsReached` | crates/renvor-auth/src/abuse.rs:618-640 | `MaxBurst` is reached by some run, for every limit; so `2 * limit` can be reached exactly when the window has more seconds than `limit` |
| `AttemptBurst.LimitBoundsBurstsExactlyForOneSecond` | crates/renvor-auth/src/abuse.rs:620-625 | `limit` itself bounds every span of one window length if and only if the window is one second |
| `AttemptBurst.MaxBurstAtLeastLimit` | crates/renvor-auth/src/abuse.rs:618-625 | `limit <= MaxBurst <= 2 * limit`, with the upper bound met exactly when the window has more seconds than `limit` |
| `AttemptBurst.AtMostTheLimit` | crates/renvor-auth/src/abuse.rs:629-640 | No part of one aligned window holds more than `limit` admissions |
| `AttemptBurst.ExactlyTheRoomIsLetThrough` | crates/renvor-auth/src/abuse.rs:627-640 | After any log, of `n` attempts at one instant exactly as many are let through as there is room: the limit, less those counted in the window, less the previous window's count but for what the seconds elapsed have let fade, rounded up; none once a later window was reached |
| `AttemptKeyring.MaskIsModulo` | crates/renvor-auth/src/abuse.rs:537-544 | For a power of two, bitwise conjunction with `c - 1` is reduction modulo `c` |
| `AttemptKeyring.EveryBucketHasTheSameShare` | crates/renvor-auth/src/abuse.rs:537-545 | For every legal bucket count, each bucket is the image of exactly `2^32 / count` digest heads |
| `AttemptKeyring.MacInputIsInjective` | crates/renvor-auth/src/abuse.rs:486-535 | Two MAC inputs are equal if and only if the dimensions are equal and the keys are equal once folded, even when account text holds the separator |
| `AttemptKeyring.Bucket` | crates/renvor-auth/src/abuse.rs:466-545 | A bucket is given exactly when the key's axis is the dimension's; it is the head of the digest of the key's MAC input modulo the bucket count |
| `AttemptKeyring.EveryKeyMeetsEachBucketAlike` | crates/renvor-auth/src/abuse.rs:537-545 | For every key, each bucket is its bucket under exactly `2^32 / count` of the digest heads |
| `AttemptKeyring.CountersAreSharedExactly` | crates/renvor-auth/src/abuse.rs:486-535 | Two keys share a bucket under every digest if and only if the dimension is one and so is the party: the folded account, the client, the IPv4 address in either form, or the /64 prefix |
| `AttemptKeyring.EquivalentKeysShareABucket` | crates/renvor-auth/src/abuse.rs:491-531 | Spellings that fold together (case, spaces, v4-mapped addresses, one /64) share a counter on every dimension |
| `AttemptKeyring.GridBoundsRows` | crates/renvor-auth/src/abuse.rs:359-366 | A table whose buckets are in range has at most `MaxRows` rows |
| `Attempts.DimensionsAreTwelve` | crates/renvor-auth/src/abuse.rs:214-233 | There are twelve dimensions, and the set that bounds the rows holds every one |
| `Attempts.DimensionsPartitionTheFlows` | crates/renvor-auth/src/abuse.rs:134-165 | No flow counts a dimension twice, no two flows share one, the network axis is each flow's last, and before it a refresh counts a client and any other flow with two dimensions an account |
| `AbuseGuard.AbuseGuardService.Admit` | crates/renvor-auth/src/abuse.rs:1018-1107 | Answer, table and audit log after one call, for every set of store outages and for a failing sink, are those of the specification functions |
| `AbuseGuard.RecordingAuditSink.Record` | crates/renvor-auth/src/audit.rs:553-566 | A failing sink records nothing; otherwise the event is appended |
| `AbuseGuard.DimensionsAreCountedIndependently` | crates/renvor-auth/src/abuse.rs:995-1003 | Counting through `n` dimensions changes exactly their rows, each as if it were counted alone |
| `AbuseGuard.RefusalIsTheDisjunction` | crates/renvor-auth/src/abuse.rs:1071-1075 | A call is refused exactly if some dimension, counted alone on the table as it was, would refuse it |
| `AbuseGuard.MissingKeyIsFoundFirst` | crates/renvor-auth/src/abuse.rs:1026-1037 | A missing key is found at the first dimension or not at all, so a misconfigured call counts nothing |
| `AdmitAnswers.AnswerIsExactly` | crates/renvor-auth/src/abuse.rs:1018-1107 | A call is misconfigured exactly if its flow counts an account or client it lacks, fails exactly if a counted dimension's store call does, and is admitted exactly if neither happens, its record is kept and every dimension's weighted count, on the stored numbers, is within the limit; the record is that verdict |
| `AdmitAnswers.StrangersNeedNotMatter` | crates/renvor-auth/src/abuse.rs:466-545 | For every call there are digests under which any history of calls that share none of its parties, and of prune calls, leaves its answer that of a first call |
| `AbuseGuard.DeletionIsInvisibleFromExpiry` | crates/renvor-auth/src/abuse.rs:728-741 | Deleting a row is invisible to its next observation if and only if that observation is at or after the row's expiry |
| `AbuseGuard.PruningIsInvisible` | crates/renvor-auth/src/abuse.rs:774-791 | Over serial histories in which no admission is earlier than a prune call before it on a dimension it counts, every answer is the same with and without the prune calls; the clock may otherwise run backwards |
| `AdmitProtocol.PerIdentifierLimit` | crates/renvor-auth/src/abuse.rs:1018-1107 | Any interleaving of calls, any bucket collisions: an identifier gets at most `limit` admissions per aligned window on each dimension, as long as no prune call on that dimension is more than one window ahead |
| `AdmitPruning.LimitHoldsExactlyWithinOneWindow` | crates/renvor-auth/src/abuse.rs:774-791 | On every dimension, all runs with prune calls on it at most `lead` ahead obey the limit if and only if `lead` is at most the window |
| `AdmitPruning.EarlySweepForgetsAdmissions` | crates/renvor-auth/src/abuse.rs:774-791 | The failing run, on any dimension and for any keys: `limit` admissions, a prune call just over one window ahead, and one admission more in the same window |
| `AdmitPruning.RunsWithoutSweepsArePrompt` | crates/renvor-auth/src/abuse.rs:780 | A run without prune calls meets the condition, so there the limit needs nothing of the callers |
| `AdmitSweeps.SweepsAreInvisible` | crates/renvor-auth/src/abuse.rs:774-791 | Under any interleaving of single observations and prune calls, if no observation is earlier than a prune call before it on its dimension, every call ends alike and the audit log is the same with and without the prune calls |
| `AdmitSweeps.SweepsAreInvisibleExactly` | crates/renvor-auth/src/abuse.rs:774-791 | For every guard, prune calls at most `lead` ahead leave every run ending alike with and without them if and only if `lead` is not positive: one nanosecond ahead can take a row whose count is still charged |
| `AdmitBurst.PerIdentifierBurst` | crates/renvor-auth/src/abuse.rs:618-640 | In every run with no prune call on the dimension more than a nanosecond ahead, whoever shares its bucket, an identifier's admissions at the instants of any half-open span of one window length number at most `MaxBurst` |
| `AdmitBurst.TwiceTheLimit` | crates/renvor-auth/src/abuse.rs:618-640 | With prune calls on the dimension up to one window ahead, those admissions number at most `2 * limit` |
| `AdmitBurst.MaxBurstHoldsExactly` | crates/renvor-auth/src/abuse.rs:774-791 | On every dimension, `MaxBurst` bounds all runs with prune calls on it at most `lead` ahead if and only if `lead` is at most a nanosecond, or at most the window where `MaxBurst` is `2 * limit` |
| `AdmitBurst.TwiceTheLimitHoldsExactlyWithinOneWindow` | crates/renvor-auth/src/abuse.rs:774-791 | On every dimension, `2 * limit` bounds all such runs if and only if `lead` is at most the window |
| `AdmitBurst.EarlySweepDoublesTheBurst` | crates/renvor-auth/src/abuse.rs:774-791 | On any dimension and for any keys, two nanoseconds ahead reach `2 * limit`: `limit` at a window's end, and `limit` again in the next |
| `AdmitBurst.GrantsAreAdmissions` | crates/renvor-auth/src/abuse.rs:756-772 | In a run without prune calls, each row of the shared table follows the log of the instants counted on it, and concurrent calls were granted exactly as many as that log admits, in every span |
| `AdmitProtocol.DecidedCallsTouchEveryDimension` | crates/renvor-auth/src/abuse.rs:995-1003 | In every run, a call admitted or refused as too many has counted all its dimensions; an admitted one was let through on each, and a refused one whose record was kept was not; a misconfigured one lacks a key and counted none; one the store failed has its keys and had a dimension left |
| `AdmitProtocol.OneEventPerDecision` | crates/renvor-auth/src/abuse.rs:1078-1107 | In every run the events of the sink are, as a multiset, the flows, verdicts, correlations and instants of the calls admitted and of those refused with their record kept |
| `AdmitProtocol.RowBound` | crates/renvor-auth/src/abuse.rs:358-366 | After every run, with or without pruning and whatever the identifiers, the table has at most `MaxRows` rows |
| `AdmitProtocol.TableStaysInGrid` | crates/renvor-auth/src/abuse.rs:466-545 | Every stored bucket is below the bucket count in every run |
| `AdmitProtocol.AdmitIsARun` | crates/renvor-auth/src/abuse.rs:1018-1107 | One serial call of the guard, whatever fails in it, is a run of the protocol with the same table, audit record and answer |
| `RefreshStore.RefreshRows.BeginFamily` | crates/renvor-auth/src/refresh.rs:883-901 | Family and first token are added together |
| `RefreshStore.RefreshRows.FindGrant` | crates/renvor-auth/src/refresh.rs:903-923 | The grant behind a digest, for consumed, expired and revoked tokens too |
| `RefreshStore.RefreshRows.Advance` | crates/renvor-auth/src/refresh.rs:925-986 | The atomic step in place: transition and new store are those of the specification functions |
| `RefreshStore.RefreshRows.RevokeFamily` | crates/renvor-auth/src/refresh.rs:988-1010 | Tombstone kept if set, every unrevoked row of the family stamped, and their number returned |
| `RefreshChain.FamilyIsAChain` | crates/renvor-auth/src/repository.rs:332-361 | What the invariant means: without a tombstone exactly one live row, the newest, and every other consumed and linked to its successor; with one, no live row |
| `RefreshChain.BeginKeepsChain` | crates/renvor-auth/src/repository.rs:304-315 | Beginning a family keeps every family a chain |
| `RefreshChain.RevokeKeepsChain` | crates/renvor-auth/src/repository.rs:363-384 | Revoking a family keeps every family a chain |
| `RefreshChain.AdvanceKeepsChain` | crates/renvor-auth/src/repository.rs:332-361 | Every outcome of `advance` keeps every family a chain |
| `RefreshChain.AdvanceLeavesOneLiveSuccessor` | crates/renvor-auth/src/refresh.rs:974-985 | The inserted successor is the family's one live row |
| `RefreshChain.ReplayRevokesTheChain` | crates/renvor-auth/src/refresh.rs:949-972 | A consumed token of a live, unexpired family is answered `Replayed` with the length of the chain, and sets the tombstone |
| `RefreshRotation.RefreshService.Begin` | crates/renvor-auth/src/refresh.rs:533-569 | Signing precedes the write; whatever fails, nothing is stored |
| `RefreshRotation.RefreshService.Rotate` | crates/renvor-auth/src/refresh.rs:585-650 | Answer and store after one rotation, for every failure of parsing, reading, entropy, signing or writing |
| `RefreshRotation.RefreshService.Revoke` | crates/renvor-auth/src/refresh.rs:652-665 | A deliberate revocation returns the number of rows it revoked |
| `RefreshRotation.RotateIsAllOrNothing` | crates/renvor-auth/src/refresh.rs:574-650 | Whatever fails: the store is unchanged; or the presented token's family, and no other, is tombstoned and the answer is the replay with the chain's length; or the returned token is that family's one live, unexpired row and the access token carries its grant |
| `RefreshRotation.BeginLeavesOneLiveToken` | crates/renvor-auth/src/refresh.rs:533-569 | A new family holds one token, live, unexpired and not outliving the family |
| `RefreshProtocol.EveryFamilyIsAChain` | crates/renvor-auth/src/refresh.rs:585-650 | Any interleaving of sign-ins, revocations and the three steps of any number of clients leaves every family a chain |
| `RefreshProtocol.HistoryIsKept` | crates/renvor-auth/src/repository.rs:363-384 | Over any continuation of any run, tombstones and consumption stamps once set never change, grants never change, and a tombstoned family gains no row |
| `RefreshProtocol.AdvanceTouchesOneFamily` | crates/renvor-auth/src/repository.rs:341-347 | An advance changes no family and no row but those of the presented token |
| `RefreshProtocol.EachTokenRotatesOnce` | crates/renvor-auth/src/repository.rs:332-361 | Over a whole run two clients that both advanced presented different tokens |
| `RefreshProtocol.DoneClientsStay` | crates/renvor-auth/src/refresh.rs:636-650 | Over any continuation of any run, a client that has its answer keeps it |
| `RefreshProtocol.HandoutsCarryTheGrant` | crates/renvor-auth/src/refresh.rs:605-634 | Every pair handed out carries its family's user and scopes, was handed out strictly before the token's expiry, which is at most the family's end, and strictly before that of the token it spent; and its token is the stored row, of that family and expiry, that replaced the spent one |
| `RefreshProtocol.GrantsStayTrue` | crates/renvor-auth/src/repository.rs:270-281 | Whatever ran since a client's read, the grant it holds is still the grant |
| `RefreshProtocol.NothingAfterTheTombstone` | crates/renvor-auth/src/repository.rs:350-351 | After a tombstone no pair of that family is handed out in any continuation |
| `RefreshProtocol.AdvanceAfterTheTombstoneIsRefused` | crates/renvor-auth/src/repository.rs:350-351 | However long after the tombstone, an advance on that family is answered `FamilyRevoked` and leaves the store as it was |
| `RefreshProtocol.ReplayEndsTheFamily` | crates/renvor-auth/src/refresh.rs:949-972 | In any run, advancing a consumed token of a live family answers with the chain's length, ends the family and hands out nothing |
| `RefreshProtocol.RotateIsARun` | crates/renvor-auth/src/refresh.rs:585-650 | A serial rotation, whatever stops it, is a run of the protocol with the same store, the same pair handed out and the same transition |
| `RefreshAnswers.TransitionIsExactly` | crates/renvor-auth/src/refresh.rs:925-986 | `Advanced`, `Replayed`, `FamilyRevoked` and `Unusable`, each if and only if a condition on the presented row's and its family's stamps and expiries |
| `RefreshAnswers.UnknownIsUnusable` | crates/renvor-auth/src/refresh.rs:936-946 | A digest no row carries is unusable and nothing is written |
| `RefreshAnswers.RevocationIsExactly` | crates/renvor-auth/src/refresh.rs:988-1010 | A revocation stamps, at its instant, the family and those of its rows not yet revoked, whose number it returns, and nothing else |
| `RefreshAnswers.RotationIsExactly` | crates/renvor-auth/src/refresh.rs:585-650 | The answer to every call, from the text presented, the ports and the fields of the row and family whose token it is; a replay counts the rows of the family |
| `RefreshAnswers.FamiliesAreAsBegun` | crates/renvor-auth/src/refresh.rs:533-569 | In every run every family has the user and scopes it was begun with and ends exactly the family lifetime after it was begun |
| `RefreshAnswers.TokensEndOnTime` | crates/renvor-auth/src/refresh.rs:685-691 | In every run every stored token was given by a beginning or a hand-out, and expires the token lifetime after that, or with its family if that is earlier |
| `RefreshLegacy.ThreeStatementsLoseTheRace` | crates/renvor-auth/src/refresh.rs:34-55 | From every store with a live token, the earlier three statements reach a tombstoned family with a live token |
| `RefreshLegacy.AtomicAdvanceWinsTheRace` | crates/renvor-auth/src/repository.rs:233-269 | The same race through `advance`: the second presenter revokes the successor too, and no live row of the family is left |
| `Accounts.Users.Register` | crates/renvor-auth/src/service.rs:600-616 | An address already present changes nothing; otherwise one row is appended under a new identity |
| `Accounts.Users.FindByEmail` | crates/renvor-auth/src/service.rs:618-627 | The first row with that address |
| `Accounts.Users.MarkEmailVerified` | crates/renvor-auth/src/service.rs:639-650 | The first instant is kept; an unknown identity changes nothing |
| `Accounts.Credentials.Upsert` | crates/renvor-auth/src/service.rs:661-676 | Retain-then-push, as the specification function |
| `Accounts.Credentials.Find` | crates/renvor-auth/src/service.rs:678-687 | The first credential of that user |
| `Accounts.UpsertIsAMapUpdate` | crates/renvor-auth/src/service.rs:661-676 | The row vector behaves as a map: an upsert replaces one user's credential and no other |
| `Accounts.Tokens.Issue` | crates/renvor-auth/src/service.rs:706-719 | One unconsumed row appended |
| `Accounts.Tokens.InvalidateAllFor` | crates/renvor-auth/src/service.rs:721-735 | Every unconsumed row of the owner stamped, no other, and their number returned |
| `Accounts.Tokens.Consume` | crates/renvor-auth/src/service.rs:737-750 | The first unconsumed, unexpired row with the digest is stamped and its owner returned; otherwise nothing changes |
| `AuthenticationService.Service.Register` | crates/renvor-auth/src/service.rs:227-262 | Outcome and both stores, for every failure of policy, entropy or either store call |
| `AuthenticationService.Service.LogIn` | crates/renvor-auth/src/service.rs:276-322 | The outcome, whatever the entropy fill returns for an unknown account |
| `AuthenticationService.Service.VerifyAgainstStoredOrDummy` | crates/renvor-auth/src/password.rs:397-410 | True exactly when a hash is stored and the password matches it, whatever the dummy holds |
| `AuthenticationService.Service.IssueAndSend` | crates/renvor-auth/src/service.rs:394-426 | Outcome and tokens, with up to three store calls succeeding; mail is sent exactly when delivered |
| `AuthenticationService.Service.SendVerification` | crates/renvor-auth/src/service.rs:436-452 | Only with an admission for the resend flow; then outcome, tokens and the one mail sent exactly on delivery |
| `AuthenticationService.Service.ForgotPassword` | crates/renvor-auth/src/service.rs:462-478 | Only with an admission for the forgot-password flow; then outcome, tokens and the one mail sent exactly on delivery |
| `AuthenticationService.Service.ConfirmVerification` | crates/renvor-auth/src/service.rs:486-508 | The token is consumed before the user is marked; an outage between the two leaves it spent |
| `AuthenticationService.Service.ResetPassword` | crates/renvor-auth/src/service.rs:525-558 | The token is consumed before the password is judged; only its owner's credential changes |
| `AccountHistory.LoginRefinesTheBook` | crates/renvor-auth/src/service.rs:276-322 | After any serial history, whatever failed in it, login succeeds if and only if its ports answer and the password normalises to the one last set for that address by its creating registration or a successful reset; an account whose registration failed between its two store calls has none until it is reset; and the login names that address's account |
| `AccountAnswers.LoginIsAnsweredExactly` | crates/renvor-auth/src/service.rs:276-322 | Every answer of login after any serial history; an unknown address, an account without a password and a wrong password are one |
| `AccountAnswers.AddressIsTakenExactly` | crates/renvor-auth/src/service.rs:600-616 | An address has an account if and only if an admitted registration for it, with an acceptable password and a salt, reached its first store call |
| `AccountAnswers.RegistrationIsAnsweredExactly` | crates/renvor-auth/src/service.rs:227-262 | Every answer of a registration, from the calls before it; a password that is blocked, or too short or long once normalised, is rejected before anything else is looked at |
| `AccountAnswers.ResetRejectsExactly` | crates/renvor-auth/src/service.rs:548-551 | A reset rejects the password if and only if it spent a token and the password is blocked, or too short or long once normalised |
| `AccountAnswers.TheBookHasNoBadPassword` | crates/renvor-auth/src/service.rs:236-240 | Over every serial history no account's password is blocked, or too short or long once normalised |
| `AccountAnswers.SendIsAnsweredExactly` | crates/renvor-auth/src/service.rs:394-426 | Every answer of a send, from the calls before it |
| `AccountAnswers.DeliveredSendMailsTheLiveToken` | crates/renvor-auth/src/service.rs:412-426 | A delivered send mails one message, to the account's address, whose secret has the digest of the account's one unconsumed row, which expires the lifetime later; any other answer mails nothing |
| `AccountAnswers.VerifiedExactlySinceConfirmed` | crates/renvor-auth/src/service.rs:500-508 | Over every serial history an account is verified since the first call that confirmed it, and unverified if none has |
| `AccountProtocol.BookSurvivesExactly` | crates/renvor-auth/src/service.rs:254-261 | With registrations and resets interleaving, the store shows the book at every point of a run if and only if no operation finishes with another password after one on its account that began later |
| `AccountProtocol.FinishShowsExactly` | crates/renvor-auth/src/service.rs:555-556 | After a worker's upsert the account's credential accepts exactly the book's password if and only if no later-begun operation on it had finished, or the two passwords normalise alike |
| `AccountProtocol.LoginReadsTheBook` | crates/renvor-auth/src/service.rs:276-322 | Where the store shows the book, login succeeds exactly with the book's password for the address |
| `AccountProtocol.LoginAfterTheRun` | crates/renvor-auth/src/service.rs:276-322 | After any interleaving in which nothing was overwritten, every login succeeds if and only if its ports answer and the password normalises to the book's for the address |
| `AccountProtocol.RegistrationOverwritesReset` | crates/renvor-auth/src/service.rs:254-261 | The run in which a reset finishes between a registration's two calls: the registration's password logs in and the reset's does not |
| `AccountProtocol.BookSurvivesExactlyWhenSerial` | crates/renvor-auth/src/service.rs:525-558 | The book survives every run if and only if at most one worker registers and resets |
| `AccountOrders.SomeOrderIsShownExactly` | crates/renvor-auth/src/service.rs:254-261 | At every point of a run each credential is what some order of the operations on its account leaves, an order that agrees with real time and has the registration before the resets, if and only if no registration finishes after a reset of its account with a password that no reset which could come last has |
| `AccountOrders.ShowsWhatMayBeLast` | crates/renvor-auth/src/service.rs:525-558 | A credential is what some such order leaves exactly when it accepts the password of an operation on the account that nothing else must follow |
| `AccountOrders.LoginsAfterTheRun` | crates/renvor-auth/src/service.rs:276-322 | After any run without such a registration, all logins to an address follow one such order: they succeed exactly with the password of its last operation |
| `AccountProtocol.RegisterIsARun` | crates/renvor-auth/src/service.rs:227-262 | A serial registration is a run of the protocol in every failure branch |
| `AccountProtocol.ResetIsARun` | crates/renvor-auth/src/service.rs:525-558 | A serial reset is a run of the protocol in every failure branch |
| `AccountHistory.FirstConfirmationIsKept` | crates/renvor-auth/src/service.rs:639-649 | Over any continuation of any history, identities, addresses and recorded confirmation instants never change |
| `AccountHistory.CredentialsAreCurrent` | crates/renvor-auth/src/service.rs:553-556 | No history ever stores a credential that must be changed |
| `TokenHistory.RepliesTellSpending` | crates/renvor-auth/src/service.rs:486-558 | A success or a refused new password means a token was spent; "no longer valid" means none was and nothing changed |
| `TokenHistory.AcceptedTokenWasIssuedToItsOwner` | crates/renvor-auth/src/service.rs:512-519 | Whatever failed along the way, an accepted token was issued earlier, for the same purpose, in a call for the address of the account it acts on, and before the end of the lifetime that call gave it |
| `TokenHistory.EachTokenIsAcceptedOnce` | crates/renvor-auth/src/service.rs:512-542 | With entropy that does not repeat, no token is accepted twice in a history, even when the new password was refused |
| `TokenAcceptance.TokenIsAcceptedExactly` | crates/renvor-auth/src/service.rs:737-750 | With entropy that does not repeat, a mailed token presented by an admitted call is accepted, for the account of its address and with the reply that follows from password, entropy and store, if and only if its lifetime is not over and no call since swept or spent it; else it is no longer valid |
| `TokenAcceptance.AcceptedWasMailedInTime` | crates/renvor-auth/src/service.rs:486-542 | Whatever is not answered as no longer valid is the text of a token issued for that purpose by an earlier call whose lifetime for it is not over |
| `TokenAcceptance.TokenIsSpentExactlySinceEnded` | crates/renvor-auth/src/service.rs:721-750 | Over every history a mailed token's consumption stamp is the instant of the first call that swept it or presented it within its lifetime, and absent if none has |
| `TokenHistory.SpendingChangesOnlyItsOwner` | crates/renvor-auth/src/service.rs:512-516 | A call that spends a token leaves every other account's user row and credential as they were |
| `TokenHistory.ConfirmationVerifiesTheOwner` | crates/renvor-auth/src/service.rs:500-508 | A successful confirmation leaves its owner verified since the first confirming instant |
| `TokenHistory.TokensAreKept` | crates/renvor-auth/src/repository.rs:196-203 | Token rows are never deleted or changed but for one consumption stamp |
| `TokenHistory.SerialSendLeavesOneLiveToken` | crates/renvor-auth/src/service.rs:386-420 | A serial send that issues leaves exactly the token it issued unconsumed for the account, and unexpired |
| `TokenHistory.AtMostOneLiveToken` | crates/renvor-auth/src/repository.rs:194-199 | Over every serial history, whatever fails, at most one unconsumed token per purpose and account |
| `ResendProtocol.UnconsumedPlusSendingIsBounded` | crates/renvor-auth/src/service.rs:412-416 | With any workers interleaving, an account's unconsumed tokens plus its workers between sweep and issue never exceed the workers that serve it |
| `ResendProtocol.EveryWorkerCanLeaveALiveToken` | crates/renvor-auth/src/service.rs:412-416 | The bound is reached for every set of workers, with tokens that are all unexpired, and all different when the secrets drawn are |
| `ResendProtocol.AtMostOneExactlyWhenSerial` | crates/renvor-auth/src/repository.rs:194-199 | "At most one live token" holds of every run with fresh secrets if and only if at most one worker serves the account |
| `ResendProtocol.EachTokenIsConsumedOnce` | crates/renvor-auth/src/repository.rs:169-178 | With fresh secrets, of any number of presentations of one token, however they interleave with sends, sweeps and each other, at most one succeeds |
| `ResendProtocol.SendIsARun` | crates/renvor-auth/src/service.rs:394-426 | A serial send is a run of the protocol in every failure branch and leaves nobody sending |
| `Hex.OneSpelling` | crates/renvor-auth/src/csrf.rs:210-236 | Text decodes to given bytes if and only if it is their rendering and they are of the expected length |
| `Hex.UnhexInvertsHex` | crates/renvor-auth/src/csrf.rs:210-236 | Rendering then decoding is the identity |
| `Hex.HexInvertsUnhex` | crates/renvor-auth/src/csrf.rs:221-236 | Whatever is accepted renders back to the identical text |
| `Hex.HighDigitFirst` | crates/renvor-auth/src/csrf.rs:210-219 | The two characters of a byte are its base-sixteen digits, the high one first |
| `Hex.Encode` | crates/renvor-auth/src/opaque.rs:126-133 | The rendering loop, high nibble first |
| `Hex.Decode` | crates/renvor-auth/src/csrf.rs:222-236 | The decoding loop: wrong length, upper case and foreign characters are refused |
| `Opaque.WireRoundTrip` | crates/renvor-auth/src/opaque.rs:102-133 | A credential is accepted if and only if the text is what `expose` renders for it |
| `Opaque.Expose` | crates/renvor-auth/src/opaque.rs:126-133 | The wire form, 64 characters |
| `Opaque.FromWire` | crates/renvor-auth/src/opaque.rs:102-113 | The parsed credential of the asked kind, or nothing |
| `Correlation.Parse` | crates/renvor-auth/src/audit.rs:123-138 | The eight bytes, or nothing; what is accepted renders back to the same text |
| `Csrf.Issue` | crates/renvor-auth/src/csrf.rs:251-265 | The token for this key, session and random value, or the entropy error |
| `Csrf.Verify` | crates/renvor-auth/src/csrf.rs:276-305 | None, several and one presented token, with every refusal in its order |
| `Csrf.AcceptedIsIssued` | crates/renvor-auth/src/csrf.rs:276-305 | A token is accepted if and only if it is what `issue` renders for this key, this session and some 32-byte random value |
| `Csrf.RefusalsAreExactly` | crates/renvor-auth/src/csrf.rs:276-305 | A token is malformed if and only if it renders no MAC and random value, and mismatched if and only if the MAC it renders is not that of both texts, each after its length |
| `Csrf.WellFormedIsTwoHexHalves` | crates/renvor-auth/src/csrf.rs:288-296 | A token is well formed exactly when it is two 32-byte renderings with one dot between |
| `Csrf.MessageIsInjective` | crates/renvor-auth/src/csrf.rs:195-208 | Messages are equal if and only if both strings are, whatever characters they contain |
| `Csrf.MessageOfDigests` | crates/renvor-auth/src/csrf.rs:195-208 | For a session digest and a random value the message is `64!`, the one, `!64!`, and the other |
| `Csrf.DecimalInjective` | crates/renvor-auth/src/csrf.rs:200-208 | No two lengths print alike |
| `Csrf.TokensAreBoundToTheirSession` | crates/renvor-auth/src/csrf.rs:239-305 | A token is accepted under another session or key exactly when two MACs agree, and for two sessions they are MACs of different messages |
| `Cookie.Read` | crates/renvor-auth/src/cookie.rs:240-278 | The scan computes the meaning of the header |
| `Cookie.RefusalsAreExactly` | crates/renvor-auth/src/cookie.rs:240-278 | Each refusal if and only if its condition on the pairs: a name that differs from the session's in the case of letters alone; the name twice; not at all; once, with a value that is not 64 lowercase hex characters |
| `Cookie.ReadIsOrderIndependent` | crates/renvor-auth/src/cookie.rs:236-239 | Every permutation of the pairs is answered alike |
| `Cookie.SessionNeedsExactlyOnePair` | crates/renvor-auth/src/cookie.rs:240-278 | A session is returned if and only if exactly one pair is its exact cookie and all others are neither that name nor a case variant of it |
| `Cookie.IssuedCookieReadsBack` | crates/renvor-auth/src/cookie.rs:205-214 | The pair `issue` writes, anywhere among unrelated pairs, reads back as the same token |

## Left out

- The move-only discipline of `Admitted`: that one admission is spent by one call is enforced by Rust ownership.
- The HTTP layer (`renvor-auth-http`), `policy.rs` and `operation.rs`.
- The SQL text and row locks of the adapters; each port call is one atomic step here.
- `session.rs` and `token.rs`: not part of this model, beyond a signing step that may fail.
- `current_user`, `needs_rehash` and the construction of the password service.
- Parsing a `Cookie` header into pairs, and the attributes of a `Set-Cookie` header.
- HMAC-SHA256, SHA-256, Argon2id, signatures and Unicode normalisation as algorithms.
- Redaction of secrets, zeroing, constant-time comparison and equal timing.
- Finite tables: dimension codes, audit action names, the shipped limits, and which constructor refuses which number.
- Overflow of calendar arithmetic, and the fallback to `now` for an instant that cannot be represented.
- Correlation identifiers rendered by `encode`: the loop is the one of `Hex.Encode` on eight bytes.
- `renvor-cache`, `renvor-config`, the command line, `xtask` and every other crate.

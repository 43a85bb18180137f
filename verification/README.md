# llms-proxy: a verified model of its stateful cores

llms-proxy is an LLM gateway. This project models the parts of it that keep state and
proves what they promise, in Dafny 4.11. `dafny verify dfyconfig.toml` checks everything.

What is modelled, file by file of the project:

- **Key pool** (`KeyState`, `Affinity`, `TokenWindow`, `KeyPool`, `KeySelection`, `KeyLoad`,
  `KeyRuns`, `KeyEvents`, `WakeUp`).
  `KeyPool` is a class over arrays and maps, one method per mutex-held method of the
  gateway, with the clock as an argument. Each method is proved to be a step on an
  abstract pool, in which the pruned token samples are replaced by the full history.
  Soundness and completeness of the selectors, and safety of every run, are proved about
  the steps. `KeyLoad` says which key a client gets in terms of requests in flight, tokens
  and turns, and `KeyEvents` what a block or a mark sets off from the event on.
- **Retry loop** (`RetryMeasure`, `RetryLoop`, `RetryRequest`, `RetryClock`, `RetryRounds`,
  `InFlight`). The inner loop of one request against one pool, with an arbitrary upstream.
  With the clock still it ends by a lexicographic measure: available keys, distance of the
  wrapping counter to the bound key, retries left. `RetryRequest` reads off the attempts
  alone when the loop goes on, with which key, and how it ends. `RetryClock` is the same
  loop with a moving clock, and `RetryRounds` says exactly when that one never ends.
  `InFlight` adds any number of concurrent forwards, proves conservation, and shows that
  the forwards of the loop are events of its ledger.
- **Targets and failover** (`WeightedShare`, `ModelIndex`, `Targets`, `Failover`).
- **Hourly usage index** (`ByteOrder`, `HourKey`, `AggKey`, `SortedRows`, `UsageIndex`,
  `UsageStore`, `UsageQuery`, `Pricing`, `UsageSums`, `UsageTotals`, `Breakdown`,
  `UsageReports`, `ReportEvents`). Buckets are sorted rows under byte-wise order of their
  string keys; prices are non-negative reals. `UsageQuery.VisitsMeanEvents` carries every additive
  reading of the index over to the raw events, for the quota and for the reports alike;
  `ReportEvents` spells out what a report says about them field by field.
- **Quota** (`Clock`, `Calendar`, `Period`, `QuotaModel`, `QuotaRuns`, `QuotaLimits`,
  `QuotaChecks`, `Quota`). The class `Manager` refines the steps of `QuotaModel`, and the
  runs of these steps are proved to keep each counter equal to the priced raw events of its
  period.
- **Buffers** (`ModelRename`, `TraceRing`). The token-bounded byte scanner, and the trace
  ring with its map.

`Text`, `Modular` and `Wrappers` are shared helpers.

## Where the code and its comments disagree

The model follows the code.

- `internal/proxy/service.go:480` and `:560` speak of a 30 s cooldown for a 429 and of
  *consecutive* keys with the same failure. The cooldown is 5 s
  (`internal/proxy/keypool.go:429-431`), and other errors in between do not reset the
  streak.
- The retries of `internal/proxy/service.go:478-611` are meant to run out. With the clock
  still they do. But the loop sleeps one and two seconds before it repeats a 429, and a
  key rests for five: with three unblocked keys and an upstream that answers every send
  with a plain 429, key 0 is marked after three seconds, key 1 after six and key 2 after
  nine, when key 0 has rested; and so on without end (`RetryRounds.RotationTurns`,
  `RetryRounds.FreshKeysEndlessIff`). `RetryRounds.EndlessIff` has the exact condition for
  any pauses, and `RetryRounds.MayGoOnForEverIff` the one for any replies without
  exhaustion codes.
- `internal/proxy/service.go:600-611` logs that it retries with the next key after an error
  without an exhaustion code. The client keeps its binding, so the next forward takes the
  same key again, until the counter of `selectKey` points at it. That is at most `2n` sends
  in a pool of `n` keys (`RetryRequest.RunKeyLoop`, `RetryMeasure.StepsToDecreases`).
- `internal/proxy/service.go:482` promises a desperation probe. While the clock stands
  still a probe is never forwarded, because the forward selects again for the client and
  finds nothing (`RetryMeasure.ProbeNeverForwarded`).
- `internal/proxy/service.go:533-540` means to pass a 429 through. The resend finds no key
  and the request ends as all keys exhausted (`RetryLoop.PassOn429`).
- The wake-up inside a forward (`internal/proxy/forward.go:115-139`) is meant to recover
  keys. Every reason the classifier reports counts as a hard failure, so it only ever
  probes blocked keys that are not exhausted, and recovering one changes nothing
  (`KeyRuns.ForwardProbeRecoversNothing`). An administrator's wake-up
  (`internal/proxy/service.go:865-895`) probes every exhausted or blocked key and does
  recover (`WakeUp.WakeUpKeys`).
- `internal/quota/manager.go:478-479` promises to clear stale entries. `Check` also forgets
  that another, running dimension is over, and goes on doing so until the client's next
  evaluation or paid request (`QuotaChecks.CheckExact`, `QuotaChecks.ForgottenUntilUpdate`,
  `QuotaChecks.CheckForgetsTheMonth`).
- `internal/quota/manager.go:184-187` loads counters to get accurate usage. What it loads
  already holds the event that is then added once more (`QuotaRuns.UnloadedCountsTwice`).
  An event that the store refuses is charged but never in the log
  (`QuotaRuns.LostEventDrifts`).
- An interrupted backfill run again counts the flushed events twice
  (`UsageStores.RerunAfterCrash`).

## Model

| member | source | states |
|---|---|---|
| KeyPools.KeyPool.constructor | internal/proxy/keypool.go:63-93 | a new pool: every key active with cleared cooldown, no bindings, counters at zero, and the pool invariant holds |
| KeyPools.KeyPool.SelectKeyForClient | internal/proxy/keypool.go:245-360 | the five-stage selection as one step: the index returned and the whole new state are those of the stage that applies, eviction ties aside |
| KeyPools.KeyPool.SelectKey | internal/proxy/keypool.go:161-233 | active key at the round-robin position, else first cooled-down key (recovered), else the probe; new state and index exactly so |
| KeyPools.KeyPool.SelectNextActiveKey | internal/proxy/keypool.go:469-509 | next active key after an index, -1 included, else a recovered one, else none; the whole new state |
| KeyPools.KeyPool.FindActive | internal/proxy/keypool.go:171-179 | the wrap-around loop finds the first active key at or after the start position |
| KeyPools.KeyPool.RecoverCooled | internal/proxy/keypool.go:181-200 | the first unblocked key whose cooldown is over is cleared and nothing else changes |
| KeyPools.KeyPool.RoundRobinKey | internal/proxy/keypool.go:305-313 | the loop over the wrapping 32-bit counter: index and final counter |
| KeyPools.KeyPool.BestWithSignal | internal/proxy/keypool.go:285-298 | one pass finds the least loaded active key and whether any active key shows load; the abstract pool is unchanged although expired samples are pruned |
| KeyPools.KeyPool.ReuseBinding | internal/proxy/keypool.go:259-280 | a live binding is kept, or moved when rebalancing is due and another key scores strictly lower |
| KeyPools.KeyPool.NewClientKey | internal/proxy/keypool.go:284-316 | an unbound client: least loaded key, round robin without load, overflow otherwise |
| KeyPools.KeyPool.OverflowKey | internal/proxy/keypool.go:318-359 | overflow to another active key or to a cooled-down one, with the binding renewed |
| KeyPools.KeyPool.Bind | internal/proxy/keypool.go:770-776 | binding a client evicts only what may go and keeps both affinity maps in step |
| KeyPools.KeyPool.MarkExhausted | internal/proxy/keypool.go:388-449 | a key is marked once per episode; reason and cooldown end by code, quota split by the reset time; an index outside the pool is ignored |
| KeyPools.KeyPool.BlockKey | internal/proxy/keypool.go:512-525 | the block of one key is set and nothing else changes |
| KeyPools.KeyPool.UnblockKey | internal/proxy/keypool.go:528-546 | block and exhaustion of one key are cleared together |
| KeyPools.KeyPool.MarkRecovered | internal/proxy/keypool.go:550-570 | true exactly when an exhausted key became active; cooldown fields cleared |
| KeyPools.KeyPool.ExhaustReasonAt | internal/proxy/keypool.go:967-977 | the reason of an exhausted key, none otherwise |
| KeyPools.KeyPool.TryWakeUp | internal/proxy/keypool.go:848-873 | allowed exactly when no wake-up runs or cools down; then one runs |
| KeyPools.KeyPool.WakeUpComplete | internal/proxy/keypool.go:875-884 | the wake-up is over and the next one a minute away |
| KeyPools.KeyPool.GetExhaustedKeys | internal/proxy/keypool.go:886-922 | exactly the exhausted or blocked keys, each once, the shortest remaining cooldown first |
| KeyPools.KeyPool.GetProbeableExhaustedKeys | internal/proxy/keypool.go:979-995 | exactly those of them whose reason is no hard failure |
| KeyPools.KeyPool.RecordTokens | internal/proxy/keypool.go:657-668 | the sample joins the history and the pruned list still stands for it |
| KeyPools.KeyPool.PruneExpiredSamples | internal/proxy/keypool.go:671-683 | pruning leaves the abstract pool as it was |
| KeyPools.KeyPool.TokenSumInWindow | internal/proxy/keypool.go:686-693 | the plain sum of the pruned list is the window sum of the full history |
| KeyPools.KeyPool.AcquireInFlight | internal/proxy/keypool.go:696-706 | one counter goes up by one |
| KeyPools.KeyPool.ReleaseInFlight | internal/proxy/keypool.go:709-719 | one counter goes down by one, not below zero |
| KeyPools.KeyPool.ActiveKeyCount | internal/proxy/keypool.go:722-735 | the number of active keys |
| KeyPools.KeyPool.ScoreIsLess | internal/proxy/keypool.go:739-752 | in-flight first, then window tokens; an index outside the pool never wins and always loses |
| KeyPools.KeyPool.BestActiveKey | internal/proxy/keypool.go:755-766 | the least loaded active key |
| KeySelection.SelectForClientSound | internal/proxy/keypool.go:245-360 | a key is returned only if it was available and it is active and bound afterwards; -1 exactly when every key is blocked or cooling down |
| KeySelection.SelectKeySound | internal/proxy/keypool.go:161-233 | never a blocked key; -1 exactly when every unblocked key cools down as rate limited; a key returned still exhausted is the first with the least remaining cooldown among the keys not rate limited, and nothing was available |
| KeySelection.NextActiveSound | internal/proxy/keypool.go:469-509 | sound and complete: -1 exactly when nothing is available |
| KeySelection.CyclicActiveComplete | internal/proxy/keypool.go:318-333 | the cyclic search misses no active key, wherever it starts |
| KeySelection.BestActiveIsLeast | internal/proxy/keypool.go:755-766 | the first lexicographic minimum of in-flight count and window tokens over the active keys; -1 exactly when there is none |
| KeySelection.ClientGetsLeastLoaded | internal/proxy/keypool.go:259-313 | for a new client or a due rebalance no active key scores strictly below the chosen one, whichever stage chose |
| KeyLoad.BestIsFirstLeastBusy | internal/proxy/keypool.go:739-766 | the best active key is the first of those with the fewest requests in flight and, among these, the fewest tokens in the last three minutes |
| KeyLoad.ClientGetsLeastBusy | internal/proxy/keypool.go:259-313 | a new client or one due for rebalancing gets a key with no more requests in flight than any active key, and no more recent tokens than one with as many |
| KeyLoad.BindingKept | internal/proxy/keypool.go:259-280 | a binding to an active key is kept for thirty seconds, and after that for as long as the key is among the least busy |
| KeyLoad.RecordCounts | internal/proxy/keypool.go:657-693 | recorded tokens weigh on their own key for three minutes and on no other |
| KeyLoad.WindowIsTokens | internal/proxy/keypool.go:686-693 | the window sum is the sum of the samples that are not older than its start |
| KeyLoad.SelectKeyInTurn | internal/proxy/keypool.go:161-179 | selectKey returns the first active key at or cyclically after the counter and moves the counter on by one, wrapping at 2^32 |
| KeyLoad.NextActiveInTurn | internal/proxy/keypool.go:469-487 | the search after an index returns the first active key cyclically after it |
| KeyLoad.IdleClientsTakeTurns | internal/proxy/keypool.go:300-313 | without load new clients take the active keys in turn, and the counter moves past the key taken |
| KeyLoad.LoadedClientsDoNot | internal/proxy/keypool.go:285-299 | with any request in flight or recent token a new client gets the first least busy key and the counter stays |
| KeyLoad.OverflowInTurn | internal/proxy/keypool.go:318-333 | a client whose key is out of order goes on to the first active key at or after the counter, which stays |
| KeyLoad.RestedInOrder | internal/proxy/keypool.go:335-359 | without an active key a client gets the first rested key of the list, in working order, and no other key changes |
| KeyLoad.ActiveKeysCounted | internal/proxy/keypool.go:722-735 | the count is the number of active keys |
| TokenWindow.WindowRefines | internal/proxy/keypool.go:671-693 | at every later instant the pruned list and the full history have the same window sum |
| TokenWindow.PrunedSum | internal/proxy/keypool.go:686-693 | once the front sample is in the window, summing the pruned list is summing the window of the history |
| TokenWindow.Prune | internal/proxy/keypool.go:671-683 | exactly the samples at the front that have left the window go |
| TokenWindow.SumTokens | internal/proxy/keypool.go:686-693 | the sum of a sample list |
| Affinity.EvictStale | internal/proxy/keypool.go:781-808 | terminates with room for one more; every idle binding goes, and past that only the oldest ones, no more than needed; both maps shrink alike |
| Affinity.EvictIdle | internal/proxy/keypool.go:781-790 | the first pass removes exactly the bindings idle for the TTL |
| Affinity.EvictionMeans | internal/proxy/keypool.go:770-811 | a new client of a full table of 10000 drops every binding not renewed for ten minutes, and beyond these only oldest ones, down to 9999; otherwise none goes |
| Affinity.Oldest | internal/proxy/keypool.go:792-804 | a binding no other one precedes; none exactly when the table is empty |
| Affinity.EvictionLeavesRoom | internal/proxy/keypool.go:770-808 | after a legal eviction the new binding fits within the limit |
| Affinity.EvictionExists | internal/proxy/keypool.go:770-808 | a legal eviction exists for every table and client |
| Affinity.RebindKeepsTable | internal/proxy/keypool.go:770-808 | the two maps keep the same domain, indices in range and the size bound |
| KeyState.InitialInv | internal/proxy/keypool.go:63-93 | a new pool satisfies the invariant |
| KeyRuns.StepKeepsInv | internal/proxy/keypool.go:161-570 | every mutex-held step keeps the pool invariant |
| KeyRuns.RunKeepsInv | internal/proxy/keypool.go:161-570 | so does every run: a key that is not exhausted has cleared cooldown fields, the affinity maps agree and stay bounded, counters are not negative |
| KeyRuns.SelectorStep | internal/proxy/keypool.go:161-509 | a selector changes no key except one it recovers after its cooldown, and returns no blocked key |
| KeyRuns.BlockedNeverSelected | internal/proxy/keypool.go:512-546 | in every run, between block and unblock no selector returns the key |
| KeyEvents.BlockedFromEvent | internal/proxy/keypool.go:512-546 | in every run from blockKey on, unless the key is unblocked, it is blocked and no selector returns it |
| KeyEvents.MarkedFromEvent | internal/proxy/keypool.go:388-570 | in every run from markExhausted of a working key on, before the end that belongs to its code and unless released, it stays exhausted for that reason and no client selection and no selectNextActiveKey returns it |
| KeyEvents.BlockSets | internal/proxy/keypool.go:512-525 | blockKey sets one block; exhaustion, the other keys, counters, bindings and samples stay |
| KeyEvents.UnblockFrees | internal/proxy/keypool.go:528-546 | after unblockKey the key is in working order and available at once; nothing else changed |
| KeyEvents.RecoverFrees | internal/proxy/keypool.go:550-570 | markRecovered ends the exhaustion of one key and leaves its block |
| KeyEvents.MarkSets | internal/proxy/keypool.go:388-449 | reason and end of an exhaustion for every code: five seconds for a 429, five minutes for token, billing and disabled account, the reset ahead for a subscription quota, the year 9999 otherwise; a key exhausted already keeps its episode |
| KeyEvents.ResetOf | internal/proxy/keypool.go:95-155 | the reset is none, the fixed instant, or the earliest clamped monthly point after now |
| KeyEvents.ProbeRestsLeast | internal/proxy/keypool.go:202-233 | the probe selectKey returns has the earliest cooldown end of the unblocked keys not rate limited, the first of them, as far as durations tell ends apart |
| KeyEvents.CheaplyProbedMeans | internal/proxy/keypool.go:946-995 | the keys a cheap probe is spent on: blocked ones in working order, and those exhausted by no failure the classifier knows |
| KeyRuns.ExhaustedUntil | internal/proxy/keypool.go:388-570 | in every run a key exhausted until T is still exhausted before T, and no client selection and no selectNextActiveKey has returned it, unless it is unblocked or marked recovered |
| KeyRuns.EpisodeKept | internal/proxy/keypool.go:388-570 | in every run, for as long as a key stays exhausted, its reason, start and cooldown end are those the episode began with; before the cooldown end it is returned only as a probe, with nothing available |
| KeyRuns.EpisodeEnds | internal/proxy/keypool.go:161-570 | an episode ends by unblockKey, by markRecovered, or by a selector once the cooldown it began with is over |
| KeyRuns.ForwardProbeRecoversNothing | internal/proxy/keypool.go:946-995 | with the codes the classifier reports, in every run the keys that a wake-up inside a forward may probe are blocked keys that are not exhausted, so recovering one changes nothing |
| WakeUp.WakeUpProbe | internal/proxy/forward.go:1299-1342 | the first cheaply probed key whose probe succeeds is marked recovered, none if none does; with hard failures only the pool stays as it was |
| WakeUp.WakeUpKeys | internal/proxy/service.go:865-895 | refused exactly while a wake-up runs or cools down; otherwise exactly the exhausted keys whose probe succeeds are recovered, blocks kept, and counted |
| WakeUp.WakeUpHelps | internal/proxy/service.go:881-892 | an exhausted pool is usable again exactly when the probe of some exhausted, unblocked key succeeds |
| WakeUp.WokenKeepsInv | internal/proxy/service.go:881-892 | an administrator's wake-up keeps the pool invariant and every block |
| RetryMeasure.StepsToDecreases | internal/proxy/keypool.go:171-178 | one increment of the wrapping counter brings it one step closer to the bound key, through the wrap as well |
| RetryMeasure.CountAvailableDrops | internal/proxy/service.go:483-611 | using up one available key lowers the count when no other key became available |
| RetryMeasure.SelectionSettles | internal/proxy/keypool.go:245-360 | after a selection the client is settled on the key, and no other key changed |
| RetryMeasure.SettledRepeats | internal/proxy/keypool.go:259-280 | a settled client gets the same key and the pool stays as it is |
| RetryMeasure.ProbeNeverForwarded | internal/proxy/service.go:581-593 | with the clock still, a desperation probe that selectKey returns is never forwarded: the next client selection finds nothing |
| RetryLoop.ForwardRequest | internal/proxy/forward.go:104-180 | key choice with the wake-up when there is none, in-flight acquire, marking by the exhaustion code and hand-over to the body; a failed send has released its slot |
| RetryLoop.WakeUpAndRetry | internal/proxy/forward.go:114-146 | with nothing available and hard failures only, the wake-up and the second selection find no key either, whatever the probes say |
| RetryLoop.ResponseBody.Close | internal/proxy/forward.go:453-463 | closing releases the slot once, however often it is called |
| RetryLoop.SwitchAfter429 | internal/proxy/service.go:524-532 | after the third 429 the key is marked, its slot released and the next key looked for |
| RetryLoop.PassOn429 | internal/proxy/service.go:532-541 | with the clock still, the resend meant to pass the 429 on finds no key: the request ends as all keys exhausted |
| RetryLoop.AfterError | internal/proxy/service.go:557-611 | stop on convergence or when selectKey offers no other key, else close the body and go on; the pool in each case |
| RetryLoop.AcceptReply | internal/proxy/service.go:492-498 | marking the key recovered after a success changes nothing, since the forwarded key is active |
| RetryLoop.HandleThird429 | internal/proxy/service.go:524-555 | once the retries of a 429 are used up, the switch to the next key or, without one, the end as all keys exhausted |
| RetryLoop.HandleReply | internal/proxy/service.go:487-611 | for every reply the verdict, the loop variables and the whole pool afterwards: accepted, repeated, switched, converged, or on to the next pass |
| RetryLoop.PassHolds | internal/proxy/service.go:483-611 | with the clock still, whatever is made of a reply concludes the request or keeps the loop invariant and lowers the measure |
| RetryLoop.ProgressUses | internal/proxy/service.go:483-611 | every pass that goes on uses up one of the sends that are left, at most 2n+3 for each available key of n |
| RetryRequest.RunKeyLoop | internal/proxy/service.go:483-611 | with the clock still the loop ends for every sequence of upstream replies and probes, after at most 2n+3 sends for each key available at the start; only keys available at the start are used, none again after a failure, at most three 429 per key; no key became available; in-flight counters are back to what they were except for the key whose body is open; convergence means that the last attempt and an earlier one with another key of this request exhausted both by the same account-level failure; every key an attempt uses up, by an error with a code or by its third 429, stays exhausted for the reason shown and is not used again, no other key gets marked, and until then the request stays with its key; nothing follows two account-level failures of one kind in a row, and exactly that ends a request as converged; a 429 is never the answer; an error that spares its key ends the request only when selectKey has come round to that key |
| RetryRequest.CoursePass | internal/proxy/service.go:487-611 | after each pass the loop variables stand for the attempts so far: the 429s modulo three, and the latest account-level failure, seen once; or the request is over as these attempts demand |
| RetryRequest.PairsGrow | internal/proxy/service.go:557-580 | one more attempt makes a pair exactly when it shows the latest account-level failure again |
| RetryRequest.AccountFailureMeans | internal/proxy/keypool.go:924-946 | which replies count towards convergence: an error status other than 429 with a code of the classifier, except a quota that comes back at a reset ahead |
| RetryRequest.SameFailureMeans | internal/proxy/keypool.go:924-946 | two of them are of one kind exactly when the codes are the same |
| RetryLoop.RunPlainLoop | internal/proxy/service.go:483-559 | without a key pool only a 429 is sent again, twice at most |
| RetryLoop.SelectKeyCloses | internal/proxy/service.go:581-585 | a selectKey call that returns another key moves the counter closer to the bound one |
| RetryLoop.ConvergenceStep | internal/proxy/service.go:560-580 | the streak stands for different keys that failed in this request by the same account-level failure; at two, the last attempt and an earlier one share it |
| RetryClock.RunTimedLoop | internal/proxy/service.go:483-611 | the loop with a clock that moves at every selection and every reply: it goes through as many passes as it is watched for, or ends at the first pass that no choice of the forward makes go on |
| RetryClock.OneKeyEnds | internal/proxy/service.go:483-611 | with at most one unblocked key the loop ends within three sends, whatever the replies and the clock |
| RetryRounds.MayGoOnForEverIff | internal/proxy/service.go:483-611 | from any pool some replies without exhaustion codes and some clock keep the loop going for ever exactly when two keys are unblocked |
| RetryRounds.EndlessIff | internal/proxy/service.go:501-555 | answered by 429s only, with rested keys and any pauses and latency: the loop never ends exactly when the rounds of all unblocked keys but one last five seconds or more |
| RetryRounds.OwnPausesEndlessIff | internal/proxy/service.go:501-555 | with the pauses of one and two seconds that means three unblocked keys |
| RetryRounds.FreshKeysEndlessIff | internal/proxy/service.go:501-555 | so a new pool of three keys keeps a request going for ever, one of two does not |
| RetryRounds.RotationTurns | internal/proxy/service.go:524-555 | the cycle of three keys: when one is marked the next has rested, and the pool is the same, one key further and three seconds later |
| RetryRounds.NeverStuck | internal/proxy/service.go:483-611 | with enough keys no passes lead to the end of the loop, whatever bindings are evicted on the way |
| RetryRounds.TooFewKeys | internal/proxy/service.go:483-611 | with fewer, from any pool, fewer than three passes for each unblocked key go on |
| RetryRounds.SwitchKeepsSpread | internal/proxy/keypool.go:388-449 | the invariant of the rounds, kept by each switch: for every j at most j keys rest for longer than j rounds leave of five seconds |
| InFlight.InFlightConserved | internal/proxy/forward.go:164-180 | in every state reachable from a new pool a counter is the number of forwards holding that key, and the floor at zero never fires |
| InFlight.InFlightDrains | internal/proxy/forward.go:441-463 | a counter is zero exactly when every forward of the key has released, by error return or by a closed body |
| InFlight.ReleaseOnceBalanced | internal/proxy/forward.go:453-463 | a release, repeated or not, keeps counters and outstanding forwards in balance |
| InFlight.ForwardPath | internal/proxy/forward.go:164-180 | every forward, however it ends, is a path of ledger events: begin, then an error return, or a hand-over to the body |
| InFlight.LedgerForward | internal/proxy/forward.go:92-449 | a forward of the retry loop leaves pool and ledger together, balanced, with its body on the books |
| InFlight.LedgerClose | internal/proxy/forward.go:458-463 | closing a body, once or again, is the ledger's release |
| Targets.TargetState.MarkFailure | internal/proxy/target.go:65-75 | a failure mutes for the quiet period, 60 s by default, and counts once |
| Targets.TargetState.MarkSuccess | internal/proxy/target.go:77-84 | a success ends muting and the failure streak |
| Targets.TargetState.Snapshot | internal/proxy/target.go:338-348 | what selection reads: configured and active key counts and the muting |
| Targets.TargetState.ViewMeans | internal/proxy/target.go:338-348 | configured keys, one at least; live keys are the active ones of the pool, or all without a pool |
| Targets.EligibleMeans | internal/proxy/target.go:293-336 | eligible: allowed to the caller, not paused, without mappings or with one for the trimmed, lower-cased model, fit for the path, and not tried before |
| Targets.WeightMeans | internal/proxy/target.go:338-367 | a candidate weighs its live keys if any candidate has one, its configured keys otherwise |
| Targets.FallbackIsFirst | internal/proxy/target.go:372-399 | the favourite if it is unmuted, else the first unmuted eligible target in order |
| Targets.Balancer.FindAvailable | internal/proxy/target.go:293-399 | the chosen target, or the earliest retry among muted candidates; the counter moves exactly when there is a candidate |
| Targets.FindIn | internal/proxy/target.go:293-399 | the choice for one counter value: the weighted favourite, else the first unmuted, else the earliest retry |
| Targets.WeighCandidates | internal/proxy/target.go:308-367 | exactly the eligible targets in order, weighed by live keys when any candidate has one |
| Targets.FindByWeight | internal/proxy/target.go:372-386 | the cumulative-weight loop picks the candidate whose share of the round holds the index |
| Targets.FirstOrEarliest | internal/proxy/target.go:388-399 | first unmuted candidate, or one whose retry no candidate precedes |
| Targets.ChoiceSoundComplete | internal/proxy/target.go:293-399 | a chosen target is eligible and unmuted; none is chosen exactly when every eligible target is muted |
| WeightedShare.ExactShare | internal/proxy/target.go:359-386 | any total-weight consecutive counter values pick each candidate exactly its weight times |
| WeightedShare.PickMeans | internal/proxy/target.go:372-386 | the candidate whose share of the round, in list order, holds the value; a negative value picks the first |
| WeightedShare.ZeroWeightNeverPicked | internal/proxy/target.go:359-386 | a candidate without weight is never picked |
| Targets.TargetShare | internal/proxy/target.go:293-399 | with nobody muted, one round of calls below 2^63 chooses each eligible target exactly its weight times, from any starting counter |
| Targets.DeadTargetNotChosen | internal/proxy/target.go:340-386 | a target without live keys is not chosen while another eligible one has some |
| Targets.SignWrapPicksFirst | internal/proxy/target.go:372-386 | past 2^63 calls the signed index picks the first candidate whatever the weights, unless it is zero |
| Targets.ShareOfNegativeRound | internal/proxy/target.go:372-386 | of a whole round past 2^63 calls all turns but one go to the first candidate |
| Targets.RoundShare | internal/proxy/target.go:293-399 | the exact share of every round, whatever counter value it starts at: the weight below 2^63, the turns left by the signed index above, and both parts of a round that crosses 2^63 or 2^64 |
| Targets.FavoursPastSign | internal/proxy/target.go:372-386 | the turns of each candidate in any stretch of calls past 2^63 no longer than a round |
| Targets.TargetShareIff | internal/proxy/target.go:293-399 | with nobody muted the exact share holds past 2^63 calls exactly when the first candidate has all the weight or the total weight is one |
| ModelIndex.BuildModelIndex | internal/proxy/target.go:516-534 | the index the mappings define |
| ModelIndex.IndexResolves | internal/proxy/target.go:516-534 | a name resolves to the last upstream of that name, else to the first mapping with that alias, however the two are interleaved |
| ModelIndex.EligibleModelEnsured | internal/proxy/sanitize.go:281-317 | the second model check never refuses a target that was eligible |
| Failover.SelectExplicit | internal/proxy/target.go:120-144 | an explicit target is taken exactly when it is usable; otherwise 403, 400 or 503 by the first check that fails, in the order of the code |
| Failover.SelectTarget | internal/proxy/target.go:110-206 | the selected target is permitted, serves model and path, unmuted and untried; a usable sticky target is taken on the first attempt; an error means that no target will do, with the status that says why |
| Failover.StickyTarget | internal/proxy/target.go:150-178 | the sticky target of a first attempt is taken whenever it is usable |
| Failover.SelectByTurn | internal/proxy/target.go:180-206 | the weighted choice, or 503 when eligible targets are all muted, 502 after tries, 400 for a model nobody takes |
| Failover.Service.Admit | internal/proxy/service.go:276-366 | every status ahead of the loop in order, 401, 503, 400, local list, 400, 429, from the request and the targets alone; the answer is counted once, a request let through is not |
| Failover.Service.Settle | internal/proxy/service.go:617-681 | a failure of the upstream mutes the target, a success unmutes it, a set-up error does neither; the answer is counted once, unless another target is to be tried |
| Failover.Service.SettleHop | internal/proxy/service.go:617-681 | settling one more forward leaves the marks of the earlier ones and every target not tried |
| Failover.Service.ChooseHop | internal/proxy/service.go:376-409 | the next forward is fair and new, or the request has failed for want of a target |
| Failover.Service.TryTargets | internal/proxy/service.go:368-683 | at most one forward per target, each one fair; all forwards but the last are retryable failures and the last decides the answer; without a target the status says why; each forward leaves its mark on its target, the other targets keep theirs; the outcome is counted once |
| Failover.Service.ServeHTTP | internal/proxy/service.go:276-683 | who is refused ahead of the loop and with which status, with no forward made; otherwise the course of the target loop decides; every request adds exactly one to successes plus failures, and to the right one; the active count is restored |
| Failover.HopFair | internal/proxy/service.go:368-409 | a usable target keeps the list of forwards free of repeats, so it is bounded by the number of targets |
| HourKey.ParseFormat | internal/nosql/usage_agg.go:48-61 | with a four-digit year a formatted hour parses back to itself |
| HourKey.FormatParse | internal/nosql/usage_agg.go:65-76 | a text that parses is the formatted hour, or differs from it by a single-digit hour |
| HourKey.HourOrder | internal/nosql/usage_agg.go:78-81 | hour texts sort exactly as hours do, for four-digit years |
| HourKey.LeapDayFormats | internal/nosql/usage_agg.go:48-61 | the text of an hour, on 29 February 2024 |
| AggKey.KeyRoundTrip | internal/nosql/usage_agg.go:48-76 | a key parses back to its normalised dimensions exactly when endpoint type and client contain no bar |
| AggKey.EncodeInjective | internal/nosql/usage_agg.go:48-61 | different cells have different keys |
| AggKey.KeySpelledOut | internal/nosql/usage_agg.go:48-61 | the parts of a key in order, spelled out |
| AggKey.ScanExact | internal/nosql/usage_agg.go:122-152 | a canonical key lies between the seek key and the sentinel exactly when its hour is in the closed range |
| AggKey.ScanExactIff | internal/nosql/usage_agg.go:122-152 | on a well-formed key the byte scan is exact for all bounds exactly when the hour part has two digits |
| AggKey.OneDigitMissed | internal/nosql/usage_agg.go:122-152 | a key with a one-digit hour parses but is missed by the scan of its own hour |
| UsageQuery.AggIter | internal/nosql/usage_agg.go:122-152 | seek, walk and sentinel stop visit exactly the decodable cells between the two byte bounds |
| UsageQuery.ScanIsRange | internal/nosql/usage_agg.go:122-152 | these are exactly the well-formed cells of the whole hours from first to last |
| UsageQuery.IndexIsCanonical | internal/nosql/usage_agg.go:90-118 | an index that agrees with the raw events has canonical keys only |
| UsageQuery.IndexSum | internal/nosql/usage_agg.go:90-118 | whatever adds up over cells has the same total over the index as over the raw events |
| UsageQuery.VisitsMeanEvents | internal/nosql/usage_agg.go:122-152 | so does whatever adds up over the cells of a scan, for the raw events of its whole hours |
| SortedRows.Seek | internal/nosql/usage_agg.go:122-131 | cursor seek: the first row not below the key |
| SortedRows.PutGet | internal/nosql/usage_agg.go:100-118 | storing under a key changes that key and no other |
| UsageIndex.BumpAgg | internal/nosql/usage_agg.go:90-118 | one cell goes up by one event, a corrupt one starts again, every other cell stays; the order is kept |
| UsageIndex.BumpKeepsAgreement | internal/nosql/usage_agg.go:90-118 | counting one more event in keeps every cell the fold of its events, wherever the event lands in the log |
| UsageStores.UsageStore.Record | internal/nosql/usage.go:34-60 | one more raw event, stamped if it has no time, and its cell in one step; an index that agreed with the log still does |
| UsageStores.ReadChunk | internal/nosql/usage_agg.go:210-238 | one read takes up to a batch of decodable events after the last key, stepping over undecodable rows |
| UsageStores.FlushBatch | internal/nosql/usage_agg.go:190-208 | a batch is counted in event by event |
| UsageStores.BackfillRows | internal/nosql/usage_agg.go:161-264 | terminates, and counts every decodable event in exactly once for every batch size |
| UsageStores.UsageStore.Backfill | internal/nosql/usage_agg.go:161-264 | from an empty index it makes it agree with the log; once marked it changes nothing |
| UsageStores.AddedToEmpty | internal/nosql/usage_agg.go:161-264 | counting all events into an empty index gives agreement |
| UsageStores.RerunAfterCrash | internal/nosql/usage_agg.go:161-264 | a backfill cut short and run again is right exactly when nothing had been flushed |
| UsageStores.NormalizedKey | internal/nosql/usage.go:34-48 | normalising an event that has a time does not move it to another cell |
| UsageStores.NormalizedClean | internal/nosql/usage.go:34-48 | a stored event has a time, names without outer space, endpoint type and model without capitals, and its own numbers |
| Text.TrimMeans | internal/nosql/usage_agg.go:48-61 | trimming takes spaces off both ends and as many as there are |
| UsageSums.SumByClientRange | internal/nosql/usage_agg.go:279-334 | the sums per endpoint type and model over the client's cells; empty when the range is |
| UsageSums.GroupingKeepsCost | internal/quota/manager.go:407-428 | pricing the groups is pricing cell by cell, as endpoint types have no colon |
| UsageSums.PriceGroups | internal/quota/manager.go:413-428 | the map loop adds up the same in any order |
| UsageSums.IndexSpent | internal/quota/manager.go:399-428 | what the cells of a client cost over whole hours is what its raw events in them cost |
| Pricing.CellCostAdds | internal/nosql/usage.go:421-433 | cost is additive over cells and never negative |
| Pricing.RequestCostIsCellCost | internal/quota/manager.go:612-630 | the price charged on the spot is the price of the event's cell |
| Pricing.PriceByKind | internal/quota/manager.go:612-630 | for every table and amount: tokens of one kind cost a millionth of their number times the rate of that kind; cache creation goes at the rate for cached input |
| Pricing.PriceIsSum | internal/quota/manager.go:612-630 | a request costs the sum over its four kinds of tokens |
| Pricing.CellPriceIsSum | internal/nosql/usage.go:421-433 | so does a stored cell |
| Pricing.UnknownModelFree | internal/quota/manager.go:612-630 | a model without rates is free |
| Period.RangeAndReset | internal/quota/period.go:22-62 | both accept the same three names; the range ends now and lies before the reset |
| Period.PeriodBounds | internal/quota/period.go:22-62 | the period contains now: from <= now < next reset |
| Period.PeriodPartition | internal/quota/period.go:22-62 | all instants between start and next reset share both |
| Period.ResetStartsNextPeriod | internal/quota/period.go:45-62 | a reset is the start of the following period |
| Period.PeriodStartMonotone | internal/quota/period.go:22-62 | a later instant has no earlier start, and none before a reset that has passed |
| Period.NextMonthlyResetEarliest | internal/proxy/keypool.go:139-155 | the earliest clamped monthly point strictly after now, short months and December included |
| Period.PeriodsByName | internal/quota/period.go:22-62 | daily: from midnight, 24 hours; weekly: from a Monday, seven days; monthly: from the first of the month to that of the next |
| Period.MonthlyPointMeans | internal/proxy/keypool.go:149-155 | a monthly point is midnight in UTC+8 of the given day, or of the last day of a shorter month |
| Calendar.DateRoundTrip | internal/quota/period.go:22-62 | building a day from a date and reading the date off it are inverse |
| Calendar.LastDayOfMonth | internal/proxy/keypool.go:149-155 | day zero of the next month is the last day of this one |
| Calendar.MonthDays | internal/quota/period.go:22-62 | the lengths of the twelve months, leap years included |
| Calendar.YearStart | internal/quota/period.go:22-62 | the day a year starts on: 365 days a year and one for each leap year before |
| Calendar.FourHundredYears | internal/quota/period.go:22-62 | the calendar repeats itself after 400 years, 146097 days, which are whole weeks |
| Calendar.KnownYear | internal/quota/period.go:22-62 | 1970 starts on day 719162, a Thursday |
| Quota.Manager.constructor | internal/quota/manager.go:75-89 | no counters and no entries |
| Quota.Manager.LoadDimension | internal/quota/manager.go:396-434 | over a trusted index the counter is the priced sum of the client's raw events in the whole hours of the period so far |
| Quota.Manager.LoadCounters | internal/quota/manager.go:386-434 | one counter per positive limit, each as above; a dimension whose sum fails is left out |
| Quota.Manager.SetExceeded | internal/quota/manager.go:436-468 | the entry becomes the first dimension over its limit, or goes; other clients keep theirs |
| Quota.Manager.Evaluate | internal/quota/manager.go:341-474 | over a trusted index the step from raw events, failures included; in any case only this client's state changes, its entry fits its counters, and nothing changes when the client listing fails |
| Quota.Manager.FallBack | internal/quota/manager.go:260-311 | counters at zero from the limits, when there are none and the listing works |
| Quota.Manager.ChargeDimensions | internal/quota/manager.go:199-222 | each counter flips lazily if its period has passed and then takes the cost |
| Quota.Manager.Increment | internal/quota/manager.go:173-258 | a loaded client is charged whatever the index holds; an unloaded one is first evaluated, or failing that started at zero; nothing for a cost that is not positive |
| Quota.Manager.RestartDimensions | internal/quota/manager.go:491-504 | exactly the counters that share the dropped entry's reset or have passed their own start over |
| Quota.Manager.Check | internal/quota/manager.go:478-510 | the answer and the whole new state |
| Quota.Manager.RecordUsage | internal/proxy/forward.go:844-906 | storing the event, or failing to, and charging its price is one step of the quota runs, and the index stays trusted |
| Quota.IndexedUse | internal/quota/manager.go:399-428 | grouped and priced, the index gives the client's spending over the period so far |
| QuotaRuns.QuotaRefines | internal/quota/manager.go:173-510 | in every run of a loaded client that loses no paid event of it, store failures included, each counter equals the priced sum of its raw events inside the period ending at its reset, across lazy flips |
| QuotaRuns.LostEventDrifts | internal/proxy/forward.go:893-905 | a request charged although its record was refused puts the counters off exactly when it cost something |
| QuotaRuns.FallbackForgets | internal/quota/manager.go:183-196 | after the fallback a counter is right exactly when this request is all the client has spent in the period |
| QuotaRuns.EvaluateTracks | internal/quota/manager.go:341-474 | after an evaluation the counters agree with the raw events |
| QuotaRuns.FlipOk | internal/quota/manager.go:206-217 | a lazily flipped counter is right: nothing was spent since its old reset |
| QuotaRuns.UnloadedCountsTwice | internal/quota/manager.go:183-218 | the first charge of an unloaded client leaves every counter over its spending by the price of that request |
| QuotaRuns.ExceededSound | internal/quota/manager.go:199-257 | in every run an entry is the first dimension over its limit among the live counters, with that counter's limit, usage and reset |
| QuotaRuns.FirstOverMeans | internal/quota/manager.go:440-455 | an entry exists exactly when some counter with a positive limit has used it up; no earlier dimension has |
| QuotaLimits.EvaluatedLimits | internal/quota/manager.go:341-394 | after an evaluation there is a counter for each positive limit whose sum could be had, with the limit of its own dimension; a client without one has neither counters nor entry |
| QuotaLimits.FallbackLimits | internal/quota/manager.go:262-311 | so it is after the fallback, with nothing spent |
| QuotaLimits.FlipRefreshes | internal/quota/manager.go:206-217 | a counter whose period has passed starts at nothing with the limit configured now, or its old one if that cannot be read; the others stay |
| QuotaLimits.RestartRefreshes | internal/quota/manager.go:486-507 | the counters a check drops with the entry start over the same way, and no others |
| QuotaRuns.InStepAfterUpdate | internal/quota/manager.go:199-257 | right after an evaluation or a charge the entry exists exactly when some dimension is over |
| QuotaChecks.CheckExact | internal/quota/manager.go:478-510 | the answer of Check is right exactly when it does not miss a running dimension that is over for want of a live entry |
| QuotaChecks.InStepUntilForgotten | internal/quota/manager.go:478-510 | in every run from an update on, entry and counters stay in step until a check forgets, and a check is wrong exactly when it is the one that forgets |
| QuotaChecks.ForgottenUntilUpdate | internal/quota/manager.go:478-510 | in every run after that, each check of the client lets the request through until its next evaluation or paid request, wrongly as long as the forgotten period runs |
| QuotaChecks.CheckForgetsTheMonth | internal/quota/manager.go:486-507 | a run from a new manager: evaluate, buy, and at the next midnight two checks let the request through although the month is over |
| UsageReports.Count | internal/nosql/usage.go:154-166 | sums of requests and successes over the scanned cells |
| UsageReports.CountMeansEvents | internal/nosql/usage.go:154-166 | these are the numbers of raw events in the whole hours, and of those that did not fail |
| ReportEvents.CountsAreSums | internal/nosql/usage.go:154-166 | the events whose instant lies in the whole hours, and those of them with a status from 1 to 499 |
| UsageReports.Aggregate | internal/nosql/usage.go:177-268 | totals over the selected cells and three breakdowns of them, buckets strictly ordered; buckets, clients and models each add up to the totals |
| UsageReports.ReportConserves | internal/nosql/usage.go:177-268 | the three breakdowns conserve every counter and exact cost |
| ReportEvents.ReportMeansEvents | internal/nosql/usage.go:177-268 | over an agreeing index each number of the report is the sum of that field over the raw events of the filter; of a bucket over those of its own hour or day, of a client or model over its own |
| ReportEvents.BucketHolds | internal/nosql/usage.go:394-408 | a bucket starts on a whole hour or day and holds the events of that hour or day |
| ReportEvents.FilterMeans | internal/nosql/usage.go:177-215 | the filter selects by whole hours, by trimmed client and by lower-cased model |
| Breakdowns.BreakdownConserves | internal/nosql/usage.go:200-250 | the parts of a breakdown by any key add up to the whole |
| Breakdowns.TallyKeeps | internal/nosql/usage.go:217-248 | the map the scan keeps up to date holds, for each key seen and no other, the sum over its own cells |
| Breakdowns.Listing | internal/nosql/usage.go:435-447 | every entry of the map once, keys strictly in order |
| Breakdowns.SortedKeys | internal/nosql/usage.go:435-440 | the keys of the map, strictly in order |
| UsageTotals.TotalsMeanEvents | internal/nosql/usage.go:177-250 | for every selection of cells, each counter and the cost over the index are those of the raw events |
| UsageReports.Summary | internal/nosql/usage.go:280-336 | the four windows; today plus yesterday within the last seven days, these within the last thirty, in every counter and cost |
| UsageReports.SummaryNests | internal/nosql/usage.go:313-329 | the same for any visited cells |
| UsageReports.LastMeansEvents | internal/nosql/usage.go:280-336 | a window up to now covers the raw events from the first whole hour at or after its start to the end of the current hour |
| ReportEvents.BetweenAreSums | internal/nosql/usage.go:280-336 | a window is the sum of the fields of the raw events between its two instants |
| ReportEvents.HourFromMeans | internal/nosql/usage.go:280-336 | where a window starts: the first whole hour at or after its start |
| UsageReports.YesterdayMeansEvents | internal/nosql/usage.go:286-326 | yesterday is exactly the raw events from midnight to midnight |
| ModelRename.ReplaceModel | internal/proxy/forward.go:1104-1147 | data unchanged if Go's EqualFold finds the names the same; otherwise the scanner's output for the lowered name, which for token bytes is renaming whole token runs; for ASCII names in terms of the names themselves |
| ModelRename.ScanAll | internal/proxy/forward.go:1111-1146 | the scanning loop writes what the scan from the start writes |
| ModelRename.MatchesHere | internal/proxy/forward.go:1118-1125 | the comparison loop against a lowered name: equal up to ASCII case at this position |
| ModelRename.RenameLowered | internal/proxy/forward.go:1108-1123 | renaming runs by the lowered name is renaming them by the name |
| ModelRename.ScanIsRename | internal/proxy/forward.go:1104-1147 | for an old name of token bytes, the scan equals replacing every maximal token run that is the old name up to case and copying the rest |
| ModelRename.ScanIsRenameIff | internal/proxy/forward.go:1104-1147 | it equals that for every body exactly when the old name consists of token bytes |
| ModelRename.RenameIdempotent | internal/proxy/forward.go:1104-1147 | renaming a renamed body changes nothing, when the new name is made of token bytes and is not the old one |
| ModelRename.RunRenamed | internal/proxy/forward.go:1104-1147 | wherever a token run stands, it becomes the new name if it equals the old one letter by letter up to case, and stays otherwise, whatever is around it |
| ModelRename.OutsideCopied | internal/proxy/forward.go:1104-1147 | text between runs is copied |
| ModelRename.FoldMeans | internal/proxy/forward.go:1118-1125 | the comparison ignores the case of ASCII letters and nothing else |
| ModelRename.TokenBytesAre | internal/proxy/forward.go:1159-1175 | tokens are letters, digits and - _ . / : |
| TraceStores.TraceStore.constructor | internal/tracestore/store.go:124-156 | an empty ring of the configured size, zero included; none when disabled |
| TraceStores.TraceStore.Record | internal/tracestore/store.go:207-229 | bodies cut, one step of the ring, the history longer by this record; nothing when disabled or nil |
| TraceStores.TraceStore.Walk | internal/tracestore/store.go:409-424 | the backward walk from the newest slot to the first empty one |
| TraceStores.TraceStore.Lookup | internal/tracestore/store.go:427-432 | the records the map still has for the walked ids |
| TraceStores.TraceStore.Slice | internal/tracestore/store.go:434-443 | the page cut out of what was found |
| TraceStores.TraceStore.List | internal/tracestore/store.go:401-443 | the page as far as memory serves it; with distinct ids its i-th record is the one offset + i back from the newest, limit of them or as many as are left of the last N |
| TraceRing.RecordsAt | internal/tracestore/store.go:222-229 | for every history an id is in the map exactly when no record with it has left the ring since its latest one was stored |
| TraceRing.WalkIs | internal/tracestore/store.go:409-424 | with named records the walk lists the last N ids newest first, repeats included |
| TraceRing.FaithfulIff | internal/tracestore/store.go:207-229 | map and walk show exactly the last N records after every call, if and only if no id is empty and none comes back within N calls of a record that has since left |
| TraceRing.DistinctFaithful | internal/tracestore/store.go:207-229 | in particular for distinct non-empty ids |
| TraceRing.UnnamedHidesAll | internal/tracestore/store.go:414-424 | a record without id hides all earlier ones from the walk |
| TraceRing.ReuseLoses | internal/tracestore/store.go:222-229 | an id reused within N calls is lost when its first record leaves |
| TraceRing.PageIs | internal/tracestore/store.go:401-443 | with distinct ids the i-th record of a page is the one offset + i back from the newest, limit of them or as many as are left of the last N |
| TraceRing.ClipMeans | internal/tracestore/store.go:212-220 | a body keeps its first characters up to the limit, all of them without one; id and the rest stay |

## Left out

Weaker than the code or conditional, member by member:

- RetryRequest.RunKeyLoop: the clock stands still and no other request uses the pool meanwhile; `RetryClock` and `RetryRounds` say what changes when the clock moves. The key-retry metric is not modelled. The client id is never empty there, since it contains a bar. That exhausted keys carry hard failures only is what `KeyRuns.ForwardProbeRecoversNothing` proves of every run with the classifier's codes; with another reason on a key a wake-up could recover it.
- RetryClock.RunTimedLoop: watched for a given number of passes, since the loop need not end. The resend after the last key's third 429 begins at the instant of that 429.
- RetryRounds.EndlessIff: latency and pauses are the same in every round; a Retry-After of the upstream is a choice of the pauses.
- RetryLoop.PassOn429: says what happens while the clock stands still; with time passing the resend may find a recovered key.
- RetryMeasure.ProbeNeverForwarded: for a clock that stands still, as above.
- KeyPools.KeyPool.MarkExhausted: the reset setting is taken as parsed (none, day of the month, fixed instant); parsing its text and the stored error body are not modelled.
- KeyPools.KeyPool.RecordTokens: token sums are unbounded integers; 64-bit overflow of a sum is not modelled. The samples are an array beside the entries, not a field of each entry.
- KeyPools.KeyPool.SelectKeyForClient: returns the index only; key strings are not modelled, so an empty key string that the gateway would take for "none" is not either.
- Targets.TargetShare: for counter values below 2^63; `Targets.RoundShare` gives the share of every round for a total weight up to 2^63, and `Targets.TargetShareIff` says exactly when it is the weight beyond 2^63.
- Targets.DeadTargetNotChosen: for counter values below 2^63; beyond, `Targets.SignWrapPicksFirst` says what is chosen.
- Failover.SelectTarget: the sticky target is a parameter; the contents of the target-level affinity store are not modelled. Messages of refusals are not either; the two 400 refusals for a model differ only in message.
- Failover.Service.TryTargets: one forward, key retries included, is an arbitrary outcome, and the target list does not change during a request. The path check of a target is an arbitrary predicate.
- InFlight.InFlightConserved: each lock-held body is one atomic step; between two of them any other step may come.
- UsageStores.UsageStore.Record: says what a record does that the store accepts; a refused one leaves the store as it is.
- UsageQuery.AggIter: bounds lie at or after the zero time; keys of years before 1 or after 9999 are not covered by the exactness lemmas.
- UsageQuery.VisitsMeanEvents: for events whose endpoint type and client have no bar and whose year has four digits; `AggKey.KeyRoundTrip` shows that the first condition is needed.
- Quota.Manager.Evaluate: the claim about raw events is for an index that agrees with them, accountable events and a trimmed client name.
- Quota.Manager.RecordUsage: storing and charging happen at one instant and the prices do not change.
- UsageReports.Summary: the window of the last hour, which scans raw events, is left out, and now is at least thirty days after the zero time.
- ModelRename.ReplaceModel: what Go's ToLower and EqualFold make of the two names are parameters; only their effect on ASCII names and the absence of ASCII capitals in a lowered name are used.
- TraceStores.TraceStore.List: the part served from memory; topping up from disk is left out.
- TraceStores.TraceStore.Record: the record is a value, so the cut of the caller's own record is not modelled; neither is the queue to the disk writer. With no slots the program stops, so an enabled store needs one slot here and in `List`.
- WakeUp.WakeUpKeys: probes and marks are one step; a key that another request exhausts or recovers in between is not modelled. The same holds for `WakeUp.WakeUpProbe`.

Not modelled at all:

- HTTP transport, headers, bodies, streaming, authentication, URL building and logging: input and output.
- The body patterns that decide an exhaustion code: an upstream reply is a status with an optional code.
- Timers, goroutine scheduling and the hourly calibration: the clock is an argument.
- Unicode space and case in the names of clients, endpoint types and models: `Text.Trim` and `Text.Lower` know ASCII only, so the keys of `AggKey`, the normalisation of `UsageStores`, the lookups of `ModelIndex` and `Pricing`, and the client names of `Quota` and `UsageReports` are modelled for ASCII names.
- Rounding of costs: all sums are over exact reals.
- `UsageStore.List` and raw-event keys in RFC 3339 form with trailing zeros dropped: they are not time-ordered within a second.
- The status reports of pool, targets, quota and metrics: copies of state that is modelled.
- Copilot accounts, admin handlers, sessions, catalog, configuration parsing and the plain CRUD stores: they would only add easy members.

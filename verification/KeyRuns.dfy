/** Safety of a key pool over whole runs: any sequence of its mutex-held steps. */
module KeyRuns {
  import Clock
  import Period
  import opened KeyState
  import opened KeySelection

  datatype PoolOp =
    | SelectKey
    | SelectForClient(client: string)
    | SelectNextActive(after: AfterIndex)
    | MarkExhausted(i: int, code: Reason)
    | BlockKey(i: int)
    | UnblockKey(i: int)
    | MarkRecovered(i: int)
    | RecordTokens(i: int, tokens: int)
    | AcquireInFlight(i: int)
    | ReleaseInFlight(i: int)

  predicate IsSelector(op: PoolOp) { op.SelectKey? || op.SelectForClient? || op.SelectNextActive? }

  /** Selectors that only hand out keys in working order: `selectKey`, and
      `selectKeyForClient` without a client name, may also return a probe. */
  predicate IsStrictSelector(op: PoolOp) {
    op.SelectNextActive? || (op.SelectForClient? && op.client != "")
  }

  /** One step at `now`; `r` is the index a selector returned, -1 for other steps. */
  ghost predicate Step(s: PoolState, op: PoolOp, now: nat, s': PoolState, r: int) {
    && Inv(s)
    && match op
       case SelectKey => (s', r) == SelectKeyStep(s, now)
       case SelectForClient(client) => SelectForClientStep(s, client, now, s', r)
       case SelectNextActive(after) => (s', r) == NextActiveStep(s, after, now)
       case MarkExhausted(i, code) => s' == MarkStep(s, i, code, now) && r == -1
       case BlockKey(i) => s' == BlockStep(s, i) && r == -1
       case UnblockKey(i) => s' == UnblockStep(s, i) && r == -1
       case MarkRecovered(i) => s' == RecoverStep(s, i).0 && r == -1
       case RecordTokens(i, tokens) => s' == RecordStep(s, i, tokens, now) && r == -1
       case AcquireInFlight(i) => s' == AcquireStep(s, i) && r == -1
       case ReleaseInFlight(i) => s' == ReleaseStep(s, i) && r == -1
  }

  datatype Event = Event(op: PoolOp, now: nat, result: int)

  ghost predicate IsRun(states: seq<PoolState>, events: seq<Event>) {
    && |states| == |events| + 1
    && forall k :: 0 <= k < |events| ==> Step(states[k], events[k].op, events[k].now, states[k + 1], events[k].result)
  }

  // ---------------------------------------------------------------------------
  // The pool invariant

  lemma KeyUpdateKeepsInv(s: PoolState, i: nat, e: KeyEntry)
    requires Inv(s) && i < |s.keys| && (!e.exhausted ==> Cleared(e))
    ensures Inv(s.(keys := s.keys[i := e]))
  {
  }

  lemma CounterKeepsInv(s: PoolState, rr: nat)
    requires Inv(s) && rr < UINT32
    ensures Inv(s.(rr := rr))
  {
  }

  lemma SelectForClientKeepsInv(s: PoolState, client: string, now: nat, s': PoolState, r: int)
    requires Inv(s) && client != "" && SelectForClientStep(s, client, now, s', r)
    ensures Inv(s')
  {
    var ch := ChooseForClient(s, client, now);
    ChoiceSound(s, client, now);
    ChoiceKeys(s, client, now);
    if ch.keys != s.keys {
      KeyUpdateKeepsInv(s, ch.idx, Recovered(s.keys[ch.idx]));
    }
    var s1 := s.(rr := ch.rr, keys := ch.keys);
    CounterKeepsInv(s.(keys := ch.keys), ch.rr);
    if ch.rebind && ch.idx >= 0 {
      BindKeepsInv(s1, client, ch.idx, now, s1.bound.Keys - s'.bound.Keys);
    }
  }

  /** Every step keeps the invariant: cleared cooldowns on keys in working order,
      non-negative in-flight counts, positive samples, and an affinity table whose
      maps agree, point into the pool and never exceed the limit. */
  lemma StepKeepsInv(s: PoolState, op: PoolOp, now: nat, s': PoolState, r: int)
    requires Step(s, op, now, s', r)
    ensures Inv(s') && |s'.keys| == |s.keys|
  {
    match op
    case SelectKey => SelectKeyKeepsInv(s, now);
    case SelectForClient(client) =>
      if client == "" {
        SelectKeyKeepsInv(s, now);
      } else {
        SelectForClientKeepsInv(s, client, now, s', r);
        SelectForClientSound(s, client, now, s', r);
      }
    case SelectNextActive(after) =>
      FirstCooledComplete(s.keys, now, 0);
      var c := FirstCooled(s.keys, now, 0);
      if c >= 0 {
        KeyUpdateKeepsInv(s, c, Recovered(s.keys[c]));
      }
    case RecordTokens(i, tokens) => RecordKeepsInv(s, i, tokens, now);
    case MarkExhausted(i, code) =>
    case BlockKey(i) =>
    case UnblockKey(i) =>
    case MarkRecovered(i) =>
    case AcquireInFlight(i) =>
    case ReleaseInFlight(i) =>
  }

  lemma SelectKeyKeepsInv(s: PoolState, now: nat)
    requires Inv(s)
    ensures Inv(SelectKeyStep(s, now).0) && |SelectKeyStep(s, now).0.keys| == |s.keys|
  {
    CounterKeepsInv(s, NextCounter(s.rr));
    var c := FirstCooled(s.keys, now, 0);
    if c >= 0 {
      KeyUpdateKeepsInv(s, c, Recovered(s.keys[c]));
    }
  }

  /** Every state of every run from a new pool satisfies the invariant. */
  lemma {:induction false} RunKeepsInv(states: seq<PoolState>, events: seq<Event>, k: nat)
    requires IsRun(states, events) && k <= |events| && Inv(states[0])
    ensures Inv(states[k]) && |states[k].keys| == |states[0].keys|
  {
    hide Step;
    if k > 0 {
      RunKeepsInv(states, events, k - 1);
      var e := events[k - 1];
      StepKeepsInv(states[k - 1], e.op, e.now, states[k], e.result);
    }
  }

  // ---------------------------------------------------------------------------
  // What one step does to one key

  /** A selector leaves every key alone except one it recovers, whose cooldown was
      over, and never returns a blocked key. */
  lemma SelectorStep(s: PoolState, op: PoolOp, now: nat, s': PoolState, r: int, i: nat)
    requires Step(s, op, now, s', r) && IsSelector(op) && i < |s.keys|
    ensures |s'.keys| == |s.keys|
    ensures s'.keys[i] == s.keys[i] || (Available(s.keys[i], now) && s'.keys[i] == Recovered(s.keys[i]))
    ensures r == i ==> !s.keys[i].blocked
    ensures r == i && IsStrictSelector(op) ==> Available(s.keys[i], now)
    ensures r == i && s.keys[i].cooldownEnd > now ==> NoneAvailable(s.keys, now) && s.keys[i].reason != RateLimited
  {
    FirstCooledComplete(s.keys, now, 0);
    match op
    case SelectKey => SelectKeySound(s, now);
    case SelectForClient(client) =>
      if client == "" {
        SelectKeySound(s, now);
      } else {
        SelectForClientSound(s, client, now, s', r);
        ChoiceSound(s, client, now);
        ChoiceKeys(s, client, now);
      }
    case SelectNextActive(after) => NextActiveSound(s, after, now);
  }

  // ---------------------------------------------------------------------------
  // Blocked keys

  predicate Unblocks(op: PoolOp, i: nat) { op == UnblockKey(i) }

  lemma BlockedStep(s: PoolState, op: PoolOp, now: nat, s': PoolState, r: int, i: nat)
    requires Step(s, op, now, s', r) && i < |s.keys| && s.keys[i].blocked && !Unblocks(op, i)
    ensures i < |s'.keys| && s'.keys[i].blocked && r != i
  {
    StepKeepsInv(s, op, now, s', r);
    if IsSelector(op) {
      SelectorStep(s, op, now, s', r, i);
    }
  }

  /** Between `blockKey` and `unblockKey` no selector returns the key, whatever else
      happens to the pool. */
  lemma {:induction false} BlockedNeverSelected(states: seq<PoolState>, events: seq<Event>, i: nat, k: nat)
    requires IsRun(states, events) && k <= |events|
    requires i < |states[0].keys| && states[0].keys[i].blocked
    requires forall j :: 0 <= j < k ==> !Unblocks(events[j].op, i)
    ensures i < |states[k].keys| && states[k].keys[i].blocked
    ensures forall j :: 0 <= j < k ==> events[j].result != i
  {
    hide Step;
    if k > 0 {
      BlockedNeverSelected(states, events, i, k - 1);
      var e := events[k - 1];
      BlockedStep(states[k - 1], e.op, e.now, states[k], e.result, i);
    }
  }

  // ---------------------------------------------------------------------------
  // Exhaustion episodes

  /** What stays fixed while a key is exhausted: all but the manual block. */
  predicate SameEpisode(e: KeyEntry, e': KeyEntry) { e'.(blocked := e.blocked) == e }

  predicate Releases(op: PoolOp, i: nat) { op == UnblockKey(i) || op == MarkRecovered(i) }

  /** One step on an exhausted key: if it stays exhausted nothing but the block changed;
      if not, it was released by hand or by a selector after its cooldown. */
  lemma EpisodeStep(s: PoolState, op: PoolOp, now: nat, s': PoolState, r: int, i: nat)
    requires Step(s, op, now, s', r) && i < |s.keys| && s.keys[i].exhausted
    ensures i < |s'.keys|
    ensures s'.keys[i].exhausted ==> SameEpisode(s.keys[i], s'.keys[i])
    ensures !s'.keys[i].exhausted ==> Releases(op, i) || (IsSelector(op) && Available(s.keys[i], now))
    ensures r == i && now < s.keys[i].cooldownEnd ==> !IsStrictSelector(op) && NoneAvailable(s.keys, now)
  {
    StepKeepsInv(s, op, now, s', r);
    if IsSelector(op) {
      SelectorStep(s, op, now, s', r, i);
    }
  }

  /** Exhausted in every state up to the `k`-th. */
  ghost predicate ExhaustedThrough(states: seq<PoolState>, i: nat, k: nat) {
    k < |states| && forall j :: 0 <= j <= k ==> i < |states[j].keys| && states[j].keys[i].exhausted
  }

  /** An episode, however long: the reason, the start and the cooldown end stay as they
      were when it began; and before the cooldown end the key is returned only as a probe
      by `selectKey`, with nothing in the pool available. */
  lemma {:induction false} EpisodeKept(states: seq<PoolState>, events: seq<Event>, i: nat, k: nat)
    requires IsRun(states, events) && ExhaustedThrough(states, i, k)
    ensures SameEpisode(states[0].keys[i], states[k].keys[i])
    ensures forall j :: 0 <= j < k && events[j].result == i && events[j].now < states[0].keys[i].cooldownEnd ==>
      !IsStrictSelector(events[j].op) && NoneAvailable(states[j].keys, events[j].now)
  {
    hide Step;
    if k > 0 {
      EpisodeKept(states, events, i, k - 1);
      var e := events[k - 1];
      EpisodeStep(states[k - 1], e.op, e.now, states[k], e.result, i);
    }
  }

  /** What ends an episode: `unblockKey` or `markRecovered` of the key, or a selector once
      the cooldown that the episode began with is over. */
  lemma EpisodeEnds(states: seq<PoolState>, events: seq<Event>, i: nat, k: nat)
    requires IsRun(states, events) && k < |events| && ExhaustedThrough(states, i, k)
    ensures i < |states[k + 1].keys|
    ensures !states[k + 1].keys[i].exhausted ==>
      Releases(events[k].op, i) || (IsSelector(events[k].op) && states[0].keys[i].cooldownEnd <= events[k].now)
  {
    EpisodeKept(states, events, i, k);
    var e := events[k];
    EpisodeStep(states[k], e.op, e.now, states[k + 1], e.result, i);
  }

  /** A key exhausted until T stays exhausted before T unless `unblockKey` or
      `markRecovered` hits it, and no client selection and no `selectNextActiveKey`
      returns it. */
  lemma {:induction false} ExhaustedUntil(states: seq<PoolState>, events: seq<Event>, i: nat, k: nat)
    requires IsRun(states, events) && k <= |events|
    requires i < |states[0].keys| && states[0].keys[i].exhausted
    requires forall j :: 0 <= j < k ==> events[j].now < states[0].keys[i].cooldownEnd
    requires forall j :: 0 <= j < k ==> !Releases(events[j].op, i)
    ensures ExhaustedThrough(states, i, k)
    ensures forall j :: 0 <= j < k && IsStrictSelector(events[j].op) ==> events[j].result != i
  {
    hide Step;
    if k > 0 {
      ExhaustedUntil(states, events, i, k - 1);
      EpisodeEnds(states, events, i, k - 1);
      EpisodeKept(states, events, i, k);
    }
  }

  // ---------------------------------------------------------------------------
  // Wake-up probes inside a forward

  /** Every exhausted key carries a reason that a cheap probe may not clear. */
  ghost predicate OnlyHardFailures(s: PoolState) {
    forall i :: 0 <= i < |s.keys| && s.keys[i].exhausted ==> IsHardFailure(s.keys[i].reason)
  }

  /** The upstream only reports codes of the classifier; 429s are marked as such. */
  predicate MarksKnownCodes(op: PoolOp) {
    op.MarkExhausted? ==> IsClassifierCode(op.code) || op.code == RateLimited
  }

  lemma HardFailureStep(s: PoolState, op: PoolOp, now: nat, s': PoolState, r: int)
    requires Step(s, op, now, s', r) && OnlyHardFailures(s) && MarksKnownCodes(op)
    ensures OnlyHardFailures(s')
  {
    StepKeepsInv(s, op, now, s', r);
    forall i | 0 <= i < |s'.keys| && s'.keys[i].exhausted
      ensures IsHardFailure(s'.keys[i].reason)
    {
      if IsSelector(op) {
        SelectorStep(s, op, now, s', r, i);
      }
    }
  }

  /** In every run the keys that a wake-up inside a forward would probe are blocked keys
      that are not exhausted, so one whose probe succeeds is not recovered by it: the pool
      stays as it was. */
  lemma {:induction false} ForwardProbeRecoversNothing(states: seq<PoolState>, events: seq<Event>, i: nat, k: nat)
    requires IsRun(states, events) && k <= |events| && OnlyHardFailures(states[0])
    requires forall j :: 0 <= j < k ==> MarksKnownCodes(events[j].op)
    ensures OnlyHardFailures(states[k])
    ensures i < |states[k].keys| && CheaplyProbed(states[k].keys[i]) ==>
      states[k].keys[i].blocked && RecoverStep(states[k], i) == (states[k], false)
  {
    hide Step;
    if k > 0 {
      ForwardProbeRecoversNothing(states, events, i, k - 1);
      var e := events[k - 1];
      HardFailureStep(states[k - 1], e.op, e.now, states[k], e.result);
    }
  }
}

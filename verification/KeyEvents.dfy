/** What blocking, unblocking, marking and recovering a key set off, from the event on and
    over the rest of every run. */
module KeyEvents {
  import opened Clock
  import Calendar
  import Period
  import opened KeyState
  import opened KeySelection
  import opened KeyRuns

  // ---------------------------------------------------------------------------
  // One event

  /** Only key `i` changed, if any; counters, bindings and token samples did not. */
  ghost predicate OnlyKey(s: PoolState, s': PoolState, i: int) {
    && |s'.keys| == |s.keys| && (forall j :: 0 <= j < |s.keys| && j != i ==> s'.keys[j] == s.keys[j])
    && s'.inFlight == s.inFlight && s'.rr == s.rr && s'.bound == s.bound && s'.boundAt == s.boundAt
    && s'.history == s.history && s'.reset == s.reset
  }

  /** `blockKey` sets the block of that key and leaves its exhaustion alone. */
  lemma BlockSets(s: PoolState, i: int, now: nat, s': PoolState, r: int)
    requires Step(s, BlockKey(i), now, s', r)
    ensures OnlyKey(s, s', i)
    ensures 0 <= i < |s.keys| ==> s'.keys[i].blocked && s'.keys[i].exhausted == s.keys[i].exhausted
    ensures 0 <= i < |s.keys| ==> s'.keys[i].exhaustedAt == s.keys[i].exhaustedAt
    ensures 0 <= i < |s.keys| ==>
      s'.keys[i].reason == s.keys[i].reason && s'.keys[i].cooldownEnd == s.keys[i].cooldownEnd
  {
  }

  /** After `unblockKey` the key is in working order and available at once. */
  lemma UnblockFrees(s: PoolState, i: int, now: nat, s': PoolState, r: int)
    requires Step(s, UnblockKey(i), now, s', r)
    ensures OnlyKey(s, s', i)
    ensures 0 <= i < |s.keys| ==> Active(s'.keys[i]) && Available(s'.keys[i], now) && Cleared(s'.keys[i])
  {
  }

  /** `markRecovered` ends the exhaustion of that key and leaves its block alone. */
  lemma RecoverFrees(s: PoolState, i: int, now: nat, s': PoolState, r: int)
    requires Step(s, MarkRecovered(i), now, s', r)
    ensures OnlyKey(s, s', i)
    ensures 0 <= i < |s.keys| ==>
      !s'.keys[i].exhausted && Cleared(s'.keys[i]) && s'.keys[i].blocked == s.keys[i].blocked
  {
  }

  /** When the cooldown of an exhaustion code is over, and the reason that is kept: five
      seconds for a 429, five minutes for what may be a mistake, the reset of the
      subscription if one is to come, and the year 9999 for everything else. */
  ghost predicate CoolsUntil(code: Reason, reset: Time, now: Time, reason: Reason, end: Time) {
    && (code.RateLimited? ==> reason == code && end == now + 5 * SECOND)
    && (code.InvalidToken? || code.BillingError? || code.AccountDisabled? ==> reason == code && end == now + 5 * MINUTE)
    && (code.QuotaExceeded? && reset > now && reset != ZERO_TIME ==> reason == QuotaSubscription && end == reset)
    && (code.QuotaExceeded? && (reset <= now || reset == ZERO_TIME) ==>
          reason == QuotaApi && end == Calendar.Date(12 * 9998, 1))
    && (!(code.RateLimited? || code.InvalidToken? || code.BillingError? || code.AccountDisabled? || code.QuotaExceeded?)
        ==> reason == code && end == Calendar.Date(12 * 9998, 1))
  }

  lemma PermanentEnd()
    ensures PERMANENT_END == Calendar.Date(12 * 9998, 1)
  {
    hide Calendar.MonthStart;
    Calendar.YearStart(9998);
  }

  /** `markExhausted` on a key in working order: exhausted from now, by the reason and until
      the end that belong to the code, and unavailable until then. A key that is exhausted
      already keeps its episode. */
  lemma MarkSets(s: PoolState, i: int, code: Reason, now: nat, s': PoolState, r: int)
    requires Step(s, MarkExhausted(i, code), now, s', r)
    ensures OnlyKey(s, s', i)
    ensures 0 <= i < |s.keys| && s.keys[i].exhausted ==> s' == s
    ensures 0 <= i < |s.keys| && !s.keys[i].exhausted ==>
      var e := s'.keys[i];
      && e.exhausted && e.exhaustedAt == now && e.blocked == s.keys[i].blocked
      && CoolsUntil(code, Period.ResolveReset(s.reset, now), now, e.reason, e.cooldownEnd)
      && forall t :: Available(e, t) <==> !e.blocked && e.cooldownEnd <= t
  {
    PermanentEnd();
    if 0 <= i < |s.keys| && s.keys[i].exhausted {
      assert s.keys[i := s.keys[i]] == s.keys;
    }
  }

  /** The reset of a pool: none, the fixed instant, or the earliest monthly point after now. */
  lemma ResetOf(spec: Period.ResetSpec, now: nat)
    requires Period.WellFormedReset(spec)
    ensures spec.NoReset? ==> Period.ResolveReset(spec, now) == ZERO_TIME
    ensures spec.FixedAt? ==> Period.ResolveReset(spec, now) == spec.at
    ensures spec.MonthlyOn? ==>
      var reset := Period.ResolveReset(spec, now);
      && reset > now && (exists m: nat :: reset == Period.MonthlyPoint(m, spec.day))
      && forall m: nat :: Period.MonthlyPoint(m, spec.day) > now ==> reset <= Period.MonthlyPoint(m, spec.day)
  {
    hide Period.MonthlyPoint, Period.NextMonthlyReset;
    if spec.MonthlyOn? {
      Period.NextMonthlyResetEarliest(now, spec.day);
    }
  }

  /** The keys a cheap probe may tell something about: blocked ones in working order, and
      those exhausted by no failure the classifier knows. */
  lemma CheaplyProbedMeans(e: KeyEntry)
    requires !e.exhausted ==> Cleared(e)
    ensures CheaplyProbed(e)
       <==> if e.exhausted then e.reason.NoReason? || e.reason.QuotaExceeded? || e.reason.OtherReason? else e.blocked
  {
  }

  /** A key that `selectKey` returns while it is still exhausted: no other unblocked key that
      is not rate limited is over its cooldown earlier, unless durations do not tell them
      apart any more. */
  lemma ProbeRestsLeast(s: PoolState, now: nat)
    requires Inv(s) && SelectKeyStep(s, now).1 >= 0
    requires !Active(SelectKeyStep(s, now).0.keys[SelectKeyStep(s, now).1])
    ensures var r := SelectKeyStep(s, now).1;
            && !s.keys[r].blocked && s.keys[r].reason != RateLimited
            && (forall j :: 0 <= j < |s.keys| && !s.keys[j].blocked && s.keys[j].reason != RateLimited ==>
                  s.keys[r].cooldownEnd <= s.keys[j].cooldownEnd || s.keys[j].cooldownEnd - now >= MAX_DURATION)
            && (forall j :: 0 <= j < r && !s.keys[j].blocked && s.keys[j].reason != RateLimited ==>
                  s.keys[r].cooldownEnd < s.keys[j].cooldownEnd)
  {
    hide SelectKeyStep, AllRateLimited;
    SelectKeySound(s, now);
  }

  // ---------------------------------------------------------------------------
  // Over the rest of a run

  lemma RunSuffix(states: seq<PoolState>, events: seq<Event>, m: nat)
    requires IsRun(states, events) && m <= |events|
    ensures IsRun(states[m..], events[m..])
  {
    hide Step;
  }

  /** From `blockKey` on, for as long as no `unblockKey` of the key comes, the key is blocked
      and no selector returns it, whatever else happens. */
  lemma BlockedFromEvent(states: seq<PoolState>, events: seq<Event>, m: nat, i: nat, k: nat)
    requires IsRun(states, events) && m < k <= |events|
    requires events[m].op == BlockKey(i) && i < |states[m].keys|
    requires forall j :: m < j < k ==> !Unblocks(events[j].op, i)
    ensures i < |states[k].keys| && states[k].keys[i].blocked
    ensures forall j :: m < j < k ==> events[j].result != i
  {
    BlockSets(states[m], i, events[m].now, states[m + 1], events[m].result);
    hide Step, IsRun;
    RunSuffix(states, events, m + 1);
    var states', events' := states[m + 1..], events[m + 1..];
    assert forall j :: 0 <= j < |events'| ==> events'[j] == events[m + 1 + j];
    RunLengths(states, events);
    BlockedNeverSelected(states', events', i, k - m - 1);
    assert forall j :: m < j < k ==> events[j] == events'[j - m - 1];
  }

  lemma StepOfRun(states: seq<PoolState>, events: seq<Event>, m: nat)
    requires IsRun(states, events) && m < |events|
    ensures |states| == |events| + 1
    ensures Step(states[m], events[m].op, events[m].now, states[m + 1], events[m].result)
  {
    hide Step;
  }

  lemma LastKept(states: seq<PoolState>, events: seq<Event>, i: nat, k: nat)
    requires IsRun(states, events) && ExhaustedThrough(states, i, k)
    ensures states[k].keys[i].exhausted && states[k].keys[i].reason == states[0].keys[i].reason
    ensures states[k].keys[i].cooldownEnd == states[0].keys[i].cooldownEnd
  {
    hide IsRun;
    EpisodeKept(states, events, i, k);
  }

  lemma RunLengths(states: seq<PoolState>, events: seq<Event>)
    requires IsRun(states, events)
    ensures |states| == |events| + 1
  {
  }

  /** From `markExhausted` of a key in working order on, before the end of the cooldown that
      belongs to the code, and unless `unblockKey` or `markRecovered` hits the key, it stays
      exhausted for the same reason and no client selection and no `selectNextActiveKey`
      returns it. */
  lemma MarkedFromEvent(states: seq<PoolState>, events: seq<Event>, m: nat, i: nat, code: Reason, end: Time, k: nat)
    requires IsRun(states, events) && m < k <= |events|
    requires events[m].op == MarkExhausted(i, code) && i < |states[m].keys| && !states[m].keys[i].exhausted
    requires end == states[m + 1].keys[i].cooldownEnd
    requires forall j :: m < j < k ==> events[j].now < end && !Releases(events[j].op, i)
    ensures var reset := Period.ResolveReset(states[m].reset, events[m].now);
            i < |states[k].keys| && CoolsUntil(code, reset, events[m].now, states[k].keys[i].reason, end)
    ensures states[k].keys[i].exhausted && states[k].keys[i].cooldownEnd == end
    ensures forall j :: m < j < k && IsStrictSelector(events[j].op) ==> events[j].result != i
  {
    hide Step, IsRun, CoolsUntil, Period.ResolveReset, Releases, OnlyKey, Available;
    StepOfRun(states, events, m);
    MarkSets(states[m], i, code, events[m].now, states[m + 1], events[m].result);
    RunSuffix(states, events, m + 1);
    RunLengths(states, events);
    var states', events' := states[m + 1..], events[m + 1..];
    assert forall j :: 0 <= j < |events'| ==> events'[j] == events[m + 1 + j];
    ExhaustedUntil(states', events', i, k - m - 1);
    LastKept(states', events', i, k - m - 1);
    assert forall j :: m < j < k ==> events[j] == events'[j - m - 1];
  }
}

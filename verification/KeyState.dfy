/** The state of one API key and of a whole pool, as values, and what each
    mutex-held pool operation does to them. */
module KeyState {
  import opened Clock
  import opened Period
  import opened Affinity

  // ---------------------------------------------------------------------------
  // Exhaustion codes and reasons

  datatype Reason =
    | NoReason
    | RateLimited
    | InvalidToken
    | BillingError
    | AccountDisabled
    | QuotaExceeded
    | QuotaSubscription
    | QuotaApi
    | Arrearage
    | FreeTierExhausted
    | AccessDeniedUnpurchased
    | OtherReason(code: string)

  /** Failures every key of the account is likely to share. */
  predicate IsAccountLevel(r: Reason) {
    r.InvalidToken? || r.AccountDisabled? || r.BillingError? || r.QuotaApi?
    || r.Arrearage? || r.FreeTierExhausted? || r.AccessDeniedUnpurchased?
  }

  /** Failures a cheap probe cannot show to be over. */
  predicate IsHardFailure(r: Reason) {
    IsAccountLevel(r) || r.RateLimited? || r.QuotaSubscription?
  }

  /** Keys the wake-up model looks at, and those of them that a forward may probe. */
  predicate Unusable(e: KeyEntry) { e.exhausted || e.blocked }

  predicate CheaplyProbed(e: KeyEntry) { Unusable(e) && !IsHardFailure(e.reason) }

  /** The codes `isKeyExhausted` can return. */
  predicate IsClassifierCode(r: Reason) {
    r.InvalidToken? || r.BillingError? || r.Arrearage? || r.AccessDeniedUnpurchased?
    || r.FreeTierExhausted? || r.QuotaExceeded? || r.AccountDisabled?
  }

  // ---------------------------------------------------------------------------
  // One key

  datatype KeyEntry = KeyEntry(
    exhausted: bool,
    exhaustedAt: Time,
    reason: Reason,
    cooldownEnd: Time,
    blocked: bool)

  datatype TokenSample = TokenSample(at: Time, tokens: int)

  /** 1 January 9999, 00:00 UTC. */
  const PERMANENT_END: Time := 315_506_361_600_000_000_000

  const FRESH_KEY: KeyEntry := KeyEntry(false, ZERO_TIME, NoReason, ZERO_TIME, false)

  predicate Active(e: KeyEntry) { !e.exhausted && !e.blocked }

  /** A key that is not exhausted carries no cooldown. */
  predicate Cleared(e: KeyEntry) {
    e.exhaustedAt == ZERO_TIME && e.reason == NoReason && e.cooldownEnd == ZERO_TIME
  }

  function Recovered(e: KeyEntry): KeyEntry {
    e.(exhausted := false, exhaustedAt := ZERO_TIME, reason := NoReason, cooldownEnd := ZERO_TIME)
  }

  /** Not blocked and not cooling down at `now`: a selector may hand it out. */
  predicate Available(e: KeyEntry, now: Time) { !e.blocked && e.cooldownEnd <= now }

  function MarkedReason(code: Reason, reset: Time, now: Time): Reason {
    if code == QuotaExceeded then
      (if reset != ZERO_TIME && reset > now then QuotaSubscription else QuotaApi)
    else code
  }

  function CooldownFor(code: Reason, reset: Time, now: Time): Time {
    match code
    case QuotaExceeded => if reset != ZERO_TIME && reset > now then reset else PERMANENT_END
    case RateLimited => now + 5 * SECOND
    case InvalidToken => now + 5 * MINUTE
    case BillingError => now + 5 * MINUTE
    case AccountDisabled => now + 5 * MINUTE
    case _ => PERMANENT_END
  }

  function Marked(e: KeyEntry, code: Reason, reset: Time, now: Time): KeyEntry {
    if e.exhausted then e
    else e.(exhausted := true, exhaustedAt := now, reason := MarkedReason(code, reset, now),
            cooldownEnd := CooldownFor(code, reset, now))
  }

  // ---------------------------------------------------------------------------
  // The token window

  const TOKEN_WINDOW: int := 180_000_000_000        // 3 minutes
  const REBALANCE_INTERVAL: int := 30_000_000_000   // 30 seconds

  function TokenSum(samples: seq<TokenSample>): int {
    if samples == [] then 0 else samples[0].tokens + TokenSum(samples[1..])
  }

  /** Tokens of the samples taken at or after `cutoff`. */
  function WindowSum(samples: seq<TokenSample>, cutoff: Time): int {
    if samples == [] then 0
    else (if samples[0].at < cutoff then 0 else samples[0].tokens) + WindowSum(samples[1..], cutoff)
  }

  // ---------------------------------------------------------------------------
  // The pool

  const UINT32: int := 0x1_0000_0000

  /** `history` holds every sample ever recorded for a key; the pool itself keeps
      only a pruned suffix of it. */
  datatype PoolState = PoolState(
    keys: seq<KeyEntry>,
    inFlight: seq<int>,
    rr: nat,
    bound: map<string, nat>,
    boundAt: map<string, Time>,
    history: seq<seq<TokenSample>>,
    reset: ResetSpec)

  ghost predicate Positive(samples: seq<TokenSample>) {
    forall j :: 0 <= j < |samples| ==> samples[j].tokens > 0
  }

  ghost predicate Inv(s: PoolState) {
    && 0 < |s.keys| < UINT32
    && |s.inFlight| == |s.keys| && |s.history| == |s.keys|
    && s.rr < UINT32
    && WellFormedReset(s.reset)
    && (forall i :: 0 <= i < |s.keys| && !s.keys[i].exhausted ==> Cleared(s.keys[i]))
    && (forall i :: 0 <= i < |s.inFlight| ==> s.inFlight[i] >= 0)
    && (forall i :: 0 <= i < |s.history| ==> Positive(s.history[i]))
    && TableInv(s.bound, s.boundAt, |s.keys|)
  }

  function InitialState(n: nat, reset: ResetSpec): PoolState {
    PoolState(seq(n, _ => FRESH_KEY), seq(n, _ => 0), 0, map[], map[], seq(n, _ => []), reset)
  }

  lemma InitialInv(n: nat, reset: ResetSpec)
    requires 0 < n < UINT32 && WellFormedReset(reset)
    ensures Inv(InitialState(n, reset))
  {
  }

  // ---------------------------------------------------------------------------
  // Searches

  /** First active key at or cyclically after `start`, having skipped `i` of them. */
  function CyclicActive(keys: seq<KeyEntry>, start: nat, i: nat): (r: int)
    requires i <= |keys|
    ensures -1 <= r < |keys|
    decreases |keys| - i
  {
    if i == |keys| then -1
    else if Active(keys[(start + i) % |keys|]) then (start + i) % |keys|
    else CyclicActive(keys, start, i + 1)
  }

  /** First unblocked key from `i` on whose cooldown is over. */
  function FirstCooled(keys: seq<KeyEntry>, now: Time, i: nat): (r: int)
    requires i <= |keys|
    ensures -1 <= r < |keys|
    decreases |keys| - i
  {
    if i == |keys| then -1
    else if Available(keys[i], now) then i
    else FirstCooled(keys, now, i + 1)
  }

  predicate Probeable(e: KeyEntry) { !e.blocked && e.reason != RateLimited }

  function Remaining(e: KeyEntry, now: Time): int { Sub(e.cooldownEnd, now) }

  /** Desperation probe: least remaining cooldown from `i` on, against `best`. */
  function LeastRemaining(keys: seq<KeyEntry>, now: Time, i: nat, best: int): (r: int)
    requires i <= |keys| && -1 <= best < |keys|
    ensures -1 <= r < |keys|
    decreases |keys| - i
  {
    if i == |keys| then best
    else if Probeable(keys[i]) && (best == -1 || Remaining(keys[i], now) < Remaining(keys[best], now)) then
      LeastRemaining(keys, now, i + 1, i)
    else LeastRemaining(keys, now, i + 1, best)
  }

  function CountActive(keys: seq<KeyEntry>): nat {
    if keys == [] then 0
    else CountActive(keys[..|keys| - 1]) + if Active(keys[|keys| - 1]) then 1 else 0
  }

  // ---------------------------------------------------------------------------
  // Load

  ghost function Load(s: PoolState, i: nat, now: Time): int
    requires i < |s.history|
  {
    WindowSum(s.history[i], now - TOKEN_WINDOW)
  }

  /** Fewer requests in flight, then fewer tokens in the window. */
  ghost predicate ScoreLess(s: PoolState, a: nat, b: nat, now: Time)
    requires a < |s.keys| && b < |s.keys|
    requires |s.inFlight| == |s.keys| && |s.history| == |s.keys|
  {
    if s.inFlight[a] != s.inFlight[b] then s.inFlight[a] < s.inFlight[b]
    else Load(s, a, now) < Load(s, b, now)
  }

  ghost function BestActive(s: PoolState, now: Time, i: nat, best: int): (r: int)
    requires i <= |s.keys| && -1 <= best < |s.keys|
    requires |s.inFlight| == |s.keys| && |s.history| == |s.keys|
    ensures -1 <= r < |s.keys|
    decreases |s.keys| - i
  {
    if i == |s.keys| then best
    else if Active(s.keys[i]) && (best == -1 || ScoreLess(s, i, best, now)) then BestActive(s, now, i + 1, i)
    else BestActive(s, now, i + 1, best)
  }

  ghost predicate Loaded(s: PoolState, i: nat, now: Time)
    requires i < |s.keys| && |s.inFlight| == |s.keys| && |s.history| == |s.keys|
  {
    Active(s.keys[i]) && (s.inFlight[i] > 0 || Load(s, i, now) > 0)
  }

  ghost predicate SignalBefore(s: PoolState, now: Time, n: nat)
    requires n <= |s.keys| && |s.inFlight| == |s.keys| && |s.history| == |s.keys|
  {
    exists i: nat :: i < n && Loaded(s, i, now)
  }

  lemma NoSignalYet(s: PoolState, now: Time)
    requires |s.inFlight| == |s.keys| && |s.history| == |s.keys|
    ensures !SignalBefore(s, now, 0)
  {
  }

  lemma SignalStep(s: PoolState, now: Time, n: nat)
    requires n < |s.keys| && |s.inFlight| == |s.keys| && |s.history| == |s.keys|
    ensures SignalBefore(s, now, n + 1) <==> SignalBefore(s, now, n) || Loaded(s, n, now)
  {
  }

  ghost predicate HasSignal(s: PoolState, now: Time)
    requires |s.inFlight| == |s.keys| && |s.history| == |s.keys|
  {
    SignalBefore(s, now, |s.keys|)
  }

  // ---------------------------------------------------------------------------
  // Selection

  function NextCounter(rr: nat): nat { (rr + 1) % UINT32 }

  /** `selectKey`: an active key, else a cooled-down one, else a probe, else -1. */
  function SelectKeyStep(s: PoolState, now: Time): (PoolState, int)
    requires |s.keys| > 0
  {
    var a := CyclicActive(s.keys, s.rr % |s.keys|, 0);
    if a >= 0 then (s.(rr := NextCounter(s.rr)), a)
    else
      var c := FirstCooled(s.keys, now, 0);
      if c >= 0 then (s.(keys := s.keys[c := Recovered(s.keys[c])]), c)
      else (s, LeastRemaining(s.keys, now, 0, -1))
  }

  /** Where a search for the next key may start from; -1 is before the first key. */
  type AfterIndex = i: int | -1 <= i witness -1

  /** `selectNextActiveKey`. */
  function NextActiveStep(s: PoolState, after: AfterIndex, now: Time): (PoolState, int)
    requires |s.keys| > 0
  {
    var a := CyclicActive(s.keys, after + 1, 0);
    if a >= 0 then (s, a)
    else
      var c := FirstCooled(s.keys, now, 0);
      if c >= 0 then (s.(keys := s.keys[c := Recovered(s.keys[c])]), c)
      else (s, -1)
  }

  /** Round robin over at most `tries` counter values; the 32-bit counter wraps. */
  function RoundRobin(keys: seq<KeyEntry>, rr: nat, tries: nat): (r: (int, nat))
    requires |keys| > 0
    ensures -1 <= r.0 < |keys|
    ensures rr < UINT32 ==> r.1 < UINT32
    ensures r.0 >= 0 ==> Active(keys[r.0])
    decreases tries
  {
    if tries == 0 then (-1, rr)
    else if Active(keys[rr % |keys|]) then (rr % |keys|, NextCounter(rr))
    else RoundRobin(keys, NextCounter(rr), tries - 1)
  }

  /** What a client is given: a key (or -1), and whether its binding is renewed. */
  datatype Choice = Choice(idx: int, rr: nat, keys: seq<KeyEntry>, rebind: bool)

  /** Overflow to the next active key, else recovery of a cooled-down one. */
  function Overflow(keys: seq<KeyEntry>, rr: nat, now: Time): (ch: Choice)
    requires |keys| > 0
  {
    var a := CyclicActive(keys, rr % |keys|, 0);
    if a >= 0 then Choice(a, rr, keys, true)
    else
      var c := FirstCooled(keys, now, 0);
      if c >= 0 then Choice(c, rr, keys[c := Recovered(keys[c])], true)
      else Choice(-1, rr, keys, false)
  }

  ghost predicate RebalanceDue(s: PoolState, client: string, now: Time)
    requires client in s.boundAt
  {
    Sub(now, s.boundAt[client]) >= REBALANCE_INTERVAL
  }

  ghost function Rebalanced(s: PoolState, preferred: nat, now: Time): (r: nat)
    requires preferred < |s.keys|
    requires |s.inFlight| == |s.keys| && |s.history| == |s.keys|
    ensures r < |s.keys|
  {
    var best := BestActive(s, now, 0, -1);
    if best >= 0 && best != preferred && ScoreLess(s, best, preferred, now) then best else preferred
  }

  ghost function ChooseForNewClient(s: PoolState, now: Time): Choice
    requires Inv(s)
  {
    var best := BestActive(s, now, 0, -1);
    if best < 0 then Overflow(s.keys, s.rr, now)
    else if HasSignal(s, now) then Choice(best, s.rr, s.keys, true)
    else
      var (idx, rr) := RoundRobin(s.keys, s.rr, |s.keys|);
      if idx >= 0 then Choice(idx, rr, s.keys, true) else Overflow(s.keys, rr, now)
  }

  /** `selectKeyForClient` for a named client, up to the affinity table. */
  ghost function ChooseForClient(s: PoolState, client: string, now: Time): Choice
    requires Inv(s)
  {
    if client !in s.bound then ChooseForNewClient(s, now)
    else
      var preferred := s.bound[client];
      if !Active(s.keys[preferred]) then Overflow(s.keys, s.rr, now)
      else if RebalanceDue(s, client, now) then
        Choice(Rebalanced(s, preferred, now), s.rr, s.keys, true)
      else Choice(preferred, s.rr, s.keys, false)
  }

  // ---------------------------------------------------------------------------
  // Affinity table

  function Rebind(s: PoolState, client: string, idx: nat, now: Time, gone: set<string>): PoolState {
    s.(bound := (s.bound - gone)[client := idx], boundAt := (s.boundAt - gone)[client := now])
  }

  ghost predicate BindStep(s: PoolState, client: string, idx: nat, now: Time, s': PoolState) {
    var gone := s.bound.Keys - s'.bound.Keys;
    EvictionOk(s.boundAt, client, now, gone) && s' == Rebind(s, client, idx, now, gone)
  }

  lemma BindKeepsInv(s: PoolState, client: string, idx: nat, now: Time, gone: set<string>)
    requires Inv(s) && client != "" && idx < |s.keys| && EvictionOk(s.boundAt, client, now, gone)
    ensures Inv(Rebind(s, client, idx, now, gone))
    ensures BindStep(s, client, idx, now, Rebind(s, client, idx, now, gone))
  {
    RebindKeepsTable(s.bound, s.boundAt, |s.keys|, client, idx, now, gone);
  }

  /** The choice takes effect, and the client's binding is renewed if it says so. */
  ghost predicate ChoiceStep(s: PoolState, ch: Choice, client: string, now: Time, s': PoolState) {
    var s1 := s.(rr := ch.rr, keys := ch.keys);
    if ch.rebind && ch.idx >= 0 then BindStep(s1, client, ch.idx, now, s') else s' == s1
  }

  ghost predicate SelectForClientStep(s: PoolState, client: string, now: Time, s': PoolState, idx: int)
    requires Inv(s)
  {
    if client == "" then (s', idx) == SelectKeyStep(s, now)
    else
      var ch := ChooseForClient(s, client, now);
      idx == ch.idx && ChoiceStep(s, ch, client, now, s')
  }

  // ---------------------------------------------------------------------------
  // Operations on one key; an index outside the pool is ignored

  predicate InPool(s: PoolState, i: int) { 0 <= i < |s.keys| }

  function MarkStep(s: PoolState, i: int, code: Reason, now: nat): PoolState {
    if !InPool(s, i) then s
    else s.(keys := s.keys[i := Marked(s.keys[i], code, ResolveReset(s.reset, now), now)])
  }

  function BlockStep(s: PoolState, i: int): PoolState {
    if !InPool(s, i) then s else s.(keys := s.keys[i := s.keys[i].(blocked := true)])
  }

  function UnblockStep(s: PoolState, i: int): PoolState {
    if !InPool(s, i) then s else s.(keys := s.keys[i := Recovered(s.keys[i]).(blocked := false)])
  }

  /** `markRecovered`; true when the key went from exhausted to active. */
  function RecoverStep(s: PoolState, i: int): (PoolState, bool) {
    if !InPool(s, i) || !s.keys[i].exhausted then (s, false)
    else (s.(keys := s.keys[i := Recovered(s.keys[i])]), true)
  }

  function RecordStep(s: PoolState, i: int, tokens: int, now: Time): PoolState
    requires |s.history| == |s.keys|
  {
    if !InPool(s, i) || tokens <= 0 then s
    else s.(history := s.history[i := s.history[i] + [TokenSample(now, tokens)]])
  }

  lemma RecordKeepsInv(s: PoolState, i: int, tokens: int, now: Time)
    requires Inv(s)
    ensures Inv(RecordStep(s, i, tokens, now))
  {
  }

  function AcquireStep(s: PoolState, i: int): PoolState {
    if 0 <= i < |s.inFlight| then s.(inFlight := s.inFlight[i := s.inFlight[i] + 1]) else s
  }

  /** With a floor at zero. */
  function ReleaseStep(s: PoolState, i: int): PoolState {
    if 0 <= i < |s.inFlight| && s.inFlight[i] > 0 then s.(inFlight := s.inFlight[i := s.inFlight[i] - 1]) else s
  }
}

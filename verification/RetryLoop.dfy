/** One request against one target: forwarding with a key of the pool, and the inner
    loop that retries with other keys. The upstream is an arbitrary sequence of
    replies; the clock stands still and no other request uses the pool meanwhile. */
module RetryLoop {
  import opened Clock
  import opened Wrappers
  import opened KeyState
  import Modular
  import opened KeyPools
  import opened KeySelection
  import opened KeyRuns
  import opened RetryMeasure
  import WakeUp

  /** What one send brings back: a transport or set-up error, or a status with the
      exhaustion code `isKeyExhausted` reads off the body, if any. */
  datatype Upstream = SendError(retryable: bool) | Reply(status: nat, code: Option<Reason>)

  predicate KnownReply(u: Upstream) { u.Reply? && u.code.Some? ==> IsClassifierCode(u.code.value) }

  /** A send whose reply marks its key exhausted. */
  predicate KeyFailure(u: Upstream) { u.Reply? && u.status >= 400 && u.code.Some? }

  predicate TooMany(u: Upstream) { u.Reply? && u.status == 429 }

  datatype Attempt = Attempt(key: nat, reply: Upstream)

  /** The response body: closing it releases the key's in-flight slot, once. */
  class ResponseBody {
    const pool: KeyPool
    const key: nat
    var open: bool

    constructor (pool: KeyPool, key: nat)
      ensures this.pool == pool && this.key == key && open
    {
      this.pool, this.key, open := pool, key, true;
    }

    method Close()
      requires pool.Valid()
      modifies this, pool.inFlight
      ensures pool.Valid() && !open
      ensures pool.Abs() == if old(open) then ReleaseStep(old(pool.Abs()), key) else old(pool.Abs())
    {
      if open {
        open := false;
        pool.ReleaseInFlight(key);
      }
    }
  }

  // ---------------------------------------------------------------------------
  // forwardRequest

  datatype Forwarded = NoKey | Failed(key: nat, retryable: bool) | Responded(key: nat, status: nat)

  /** The pool after a forward chose `key` in state `mid` and got `u`. */
  function AfterReply(mid: PoolState, key: nat, u: Upstream, now: nat): PoolState {
    if KeyFailure(u) then MarkStep(mid, key, u.code.value, now) else mid
  }

  lemma AcquireRelease(s: PoolState, key: nat)
    requires Inv(s) && key < |s.keys|
    ensures ReleaseStep(AcquireStep(s, key), key) == s
  {
    assert s.inFlight[key := s.inFlight[key] + 1][key := s.inFlight[key]] == s.inFlight;
  }

  lemma ReleaseAfterMark(s: PoolState, key: nat, code: Reason, now: nat)
    requires Inv(s) && key < |s.keys|
    ensures ReleaseStep(MarkStep(AcquireStep(s, key), key, code, now), key) == MarkStep(s, key, code, now)
    ensures MarkStep(AcquireStep(s, key), key, code, now) == AcquireStep(MarkStep(s, key, code, now), key)
  {
    assert s.inFlight[key := s.inFlight[key] + 1][key := s.inFlight[key]] == s.inFlight;
  }

  /** A forward from pool `s` to pool `s'`: the client selection at `now` ends in `mid`;
      without a key or with a failed send the pool stays like that; with a reply, at
      `done`, the key's slot is held, and the key marked if the reply says so. */
  ghost predicate ForwardStep(s: PoolState, client: string, u: Upstream, now: nat, done: nat, mid: PoolState,
                              res: Forwarded, s': PoolState)
    requires Inv(s)
  {
    && SelectForClientStep(s, client, now, mid, if res.NoKey? then -1 else res.key)
    && Inv(mid) && |mid.keys| == |s.keys| && mid.inFlight == s.inFlight
    && match res
       case NoKey => s' == mid
       case Failed(key, retryable) => key < |mid.keys| && u == SendError(retryable) && s' == mid
       case Responded(key, status) =>
         key < |mid.keys| && u.Reply? && status == u.status && s' == AcquireStep(AfterReply(mid, key, u, done), key)
  }

  /** A selection that finds nothing leaves the pool as it is. */
  lemma NoKeyNoChange(s: PoolState, client: string, now: nat, s': PoolState)
    requires Inv(s) && client != "" && SelectForClientStep(s, client, now, s', -1)
    ensures s' == s
  {
    hide BestActive, HasSignal, RoundRobin, CyclicActive, FirstCooled, Available;
    ChoiceSound(s, client, now);
    BestActiveIsLeast(s, now);
    if NoneAvailable(s.keys, now) {
      NoneActive(s, now);
    }
    OverflowSound(s, s.rr, now);
  }

  lemma NoneActive(s: PoolState, now: nat)
    requires Inv(s) && NoneAvailable(s.keys, now)
    ensures forall j :: 0 <= j < |s.keys| ==> !Active(s.keys[j])
  {
  }

  /** Without a key the forward may wake up the pool, but no key that it may probe is
      exhausted, so it finds none then either. */
  method WakeUpAndRetry(pool: KeyPool, client: string, probe: nat -> bool, now: nat) returns (idx: int)
    requires pool.Valid() && pool.clock <= now && client != "" && OnlyHardFailures(pool.Abs())
    requires NoneAvailable(pool.Abs().keys, now)
    modifies pool, pool.entries, pool.tokenSamples
    ensures pool.Valid() && pool.clock <= now && pool.Abs() == old(pool.Abs()) && idx == -1
  {
    hide KeyPool.Valid, KeyPool.Abs, Inv, SelectForClientStep, OnlyHardFailures;
    ghost var s := pool.Abs();
    pool.ValidInv();
    idx := -1;
    var allowed := pool.TryWakeUp(now);
    if allowed {
      var woken := WakeUp.WakeUpProbe(pool, probe, now);
      pool.WakeUpComplete(now);
      if woken >= 0 {
        idx := pool.SelectKeyForClient(client, now);
        SelectForClientSound(s, client, now, pool.Abs(), idx);
        NoKeyNoChange(s, client, now, pool.Abs());
      }
    }
  }

  /** `forwardRequest`, begun at `now` and replied to at `done`; `probe` says which keys a
      wake-up would find working. */
  method ForwardRequest(pool: KeyPool, client: string, u: Upstream, probe: nat -> bool, now: nat, done: nat)
    returns (res: Forwarded, body: ResponseBody?, ghost mid: PoolState)
    requires pool.Valid() && pool.clock <= now <= done && client != "" && OnlyHardFailures(pool.Abs())
    modifies pool, pool.entries, pool.inFlight, pool.tokenSamples
    ensures pool.Valid() && pool.clock <= now
    ensures Inv(old(pool.Abs())) && ForwardStep(old(pool.Abs()), client, u, now, done, mid, res, pool.Abs())
    ensures res.Responded? <==> body != null
    ensures body != null ==> fresh(body) && body.open && body.pool == pool && body.key == res.key
  {
    hide KeyPool.Valid, KeyPool.Abs, Inv, SelectForClientStep, MarkStep, OnlyHardFailures, NoneAvailable;
    ghost var s := pool.Abs();
    pool.ValidInv();
    var idx := pool.SelectKeyForClient(client, now);
    mid := pool.Abs();
    pool.ValidInv();
    SelectForClientSound(s, client, now, mid, idx);
    SelectionSettles(s, client, now, mid, idx);
    if idx < 0 {
      NoKeyNoChange(s, client, now, mid);
      idx := WakeUpAndRetry(pool, client, probe, now);
      if idx < 0 {
        return NoKey, null, mid;
      }
    }
    pool.AcquireInFlight(idx);
    AcquireRelease(mid, idx);
    if u.SendError? {
      pool.ReleaseInFlight(idx);
      return Failed(idx, u.retryable), null, mid;
    }
    if u.status >= 400 && u.code.Some? {
      ReleaseAfterMark(mid, idx, u.code.value, done);
      pool.MarkExhausted(idx, u.code.value, done);
    }
    body := new ResponseBody(pool, idx);
    return Responded(idx, u.status), body, mid;
  }

  // ---------------------------------------------------------------------------
  // What the loop keeps

  function Count429(trail: seq<Attempt>, key: nat): nat {
    if trail == [] then 0
    else
      var last := trail[|trail| - 1];
      Count429(trail[..|trail| - 1], key) + if last.key == key && TooMany(last.reply) then 1 else 0
  }

  /** A key that failed is not used again in the request. */
  ghost predicate FailedOnce(trail: seq<Attempt>) {
    forall i, j :: 0 <= i < j < |trail| && KeyFailure(trail[i].reply) ==> trail[j].key != trail[i].key
  }

  ghost predicate UsedUp(keys: seq<KeyEntry>, now: Time, trail: seq<Attempt>) {
    forall j :: 0 <= j < |trail| && KeyFailure(trail[j].reply) ==>
      trail[j].key < |keys| && !Available(keys[trail[j].key], now)
  }

  /** Only keys that were available when the request came in are ever used. */
  ghost predicate FromAvailable(keys: seq<KeyEntry>, now: Time, trail: seq<Attempt>) {
    forall j :: 0 <= j < |trail| ==> trail[j].key < |keys| && Available(keys[trail[j].key], now)
  }

  ghost predicate TrailInv(s0: PoolState, s: PoolState, now: Time, trail: seq<Attempt>) {
    && Inv(s) && s.inFlight == s0.inFlight && NoneGained(s0.keys, s.keys, now)
    && FromAvailable(s0.keys, now, trail) && UsedUp(s.keys, now, trail) && FailedOnce(trail)
  }

  /** 429 replies per key: at most three, and a key still available that had any is
      the settled client's own, with no more of them than retries spent. */
  ghost predicate Tally(s: PoolState, client: string, now: Time, trail: seq<Attempt>, retries: nat) {
    && (forall k: nat :: k < |s.keys| ==> Count429(trail, k) <= 3)
    && (forall k: nat :: k < |s.keys| && Available(s.keys[k], now) && Count429(trail, k) > 0 ==>
          Settled(s, client, now) && s.bound[client] == k && Count429(trail, k) <= retries)
  }

  lemma NoneGainedSame(keys: seq<KeyEntry>, now: Time)
    ensures NoneGained(keys, keys, now)
  {
  }

  lemma NoneGainedTrans(a: seq<KeyEntry>, b: seq<KeyEntry>, c: seq<KeyEntry>, now: Time)
    requires NoneGained(a, b, now) && NoneGained(b, c, now)
    ensures NoneGained(a, c, now)
  {
  }

  /** The state once a reply is in (and its body closed): nothing became available;
      a failed key is used up; otherwise the client is settled on the key. */
  lemma ReplyStep(s: PoolState, client: string, now: nat, mid: PoolState, key: nat, u: Upstream)
    requires Inv(s) && client != "" && now < PERMANENT_END && KnownReply(u)
    requires SelectForClientStep(s, client, now, mid, key) && Inv(mid) && key < |s.keys|
    ensures var t := AfterReply(mid, key, u, now);
            && Inv(t) && t.inFlight == s.inFlight && t.rr < UINT32
            && NoneGained(s.keys, t.keys, now) && Available(s.keys[key], now)
            && (KeyFailure(u) ==> !Available(t.keys[key], now) && t.keys[key].exhausted)
            && (!KeyFailure(u) ==> t == mid && Settled(t, client, now) && t.bound[client] == key)
            && (!KeyFailure(u) ==> Distance(t, client, now) <= Distance(s, client, now))
    ensures Settled(s, client, now) ==> key == s.bound[client]
  {
    hide SelectForClientStep, MarkStep, Inv, StepsTo, Active;
    SelectionSettles(s, client, now, mid, key);
    RangeOfCounter(mid);
    if Settled(s, client, now) {
      SettledRepeats(s, client, now, mid, key);
    }
    if KeyFailure(u) {
      assert !mid.keys[key].exhausted by { ActiveNow(mid, key, client, now); }
      MarkUsesUp(s, mid, key, u.code.value, now);
    }
  }

  lemma RangeOfCounter(s: PoolState)
    requires Inv(s)
    ensures s.rr < UINT32
  {
  }

  lemma ActiveNow(s: PoolState, key: nat, client: string, now: Time)
    requires Settled(s, client, now) && s.bound[client] == key
    ensures !s.keys[key].exhausted
  {
  }

  lemma MarkUsesUp(s: PoolState, mid: PoolState, key: nat, code: Reason, now: nat)
    requires Inv(mid) && key < |mid.keys| && |mid.keys| == |s.keys| && IsClassifierCode(code) && now < PERMANENT_END
    requires !mid.keys[key].exhausted && Available(s.keys[key], now)
    requires forall i :: 0 <= i < |s.keys| ==> mid.keys[i] == s.keys[i] || i == key
    ensures var t := MarkStep(mid, key, code, now);
            && Inv(t) && t.inFlight == mid.inFlight && t.rr < UINT32 && NoneGained(s.keys, t.keys, now)
            && !Available(t.keys[key], now) && t.keys[key].exhausted
  {
    MarkedIsUnavailable(mid.keys[key], code, Period.ResolveReset(mid.reset, now), now);
  }

  lemma TrailGrows(s0: PoolState, s: PoolState, now: Time, trail: seq<Attempt>, t: PoolState, key: nat, u: Upstream)
    requires TrailInv(s0, s, now, trail) && Inv(t) && t.inFlight == s.inFlight
    requires NoneGained(s.keys, t.keys, now) && key < |s.keys| && Available(s.keys[key], now)
    requires KeyFailure(u) ==> !Available(t.keys[key], now)
    ensures TrailInv(s0, t, now, trail + [Attempt(key, u)])
  {
    NoneGainedTrans(s0.keys, s.keys, t.keys, now);
  }

  lemma Count429Grows(trail: seq<Attempt>, a: Attempt, k: nat)
    ensures Count429(trail + [a], k) == Count429(trail, k) + if a.key == k && TooMany(a.reply) then 1 else 0
  {
    assert (trail + [a])[..|trail|] == trail;
  }

  /** The tally after one more reply, in a later state where either the key is used
      up or the client is still settled on it with enough retries on the books. */
  lemma TallyGrows(s: PoolState, client: string, now: Time, trail: seq<Attempt>, retries: nat,
                   t: PoolState, key: nat, u: Upstream, retries': nat)
    requires Inv(s) && Tally(s, client, now, trail, retries) && NoneGained(s.keys, t.keys, now)
    requires key < |s.keys| && Available(s.keys[key], now) && retries <= 2
    requires Settled(s, client, now) ==> key == s.bound[client]
    requires !Available(t.keys[key], now)
          || (Settled(t, client, now) && t.bound[client] == key && retries' >= retries + if TooMany(u) then 1 else 0)
    ensures Tally(t, client, now, trail + [Attempt(key, u)], retries')
  {
    forall k: nat | k < |t.keys|
      ensures Count429(trail + [Attempt(key, u)], k) <= 3
      ensures Available(t.keys[k], now) && Count429(trail + [Attempt(key, u)], k) > 0 ==>
        Settled(t, client, now) && t.bound[client] == k && Count429(trail + [Attempt(key, u)], k) <= retries'
    {
      Count429Grows(trail, Attempt(key, u), k);
    }
  }

  /** Keys the request has seen fail with the account-level code it may converge on. */
  ghost predicate Converging(keys: seq<KeyEntry>, now: Time, code: Reason, streak: nat, hits: set<nat>) {
    && |hits| == streak
    && (code == NoReason <==> streak == 0) && (streak > 0 ==> IsAccountLevel(code))
    && (forall k :: k in hits ==> k < |keys| && keys[k].exhausted && keys[k].reason == code && !Available(keys[k], now))
  }

  /** An attempt with the key got a reply that exhausts it. */
  ghost predicate FailedIn(trail: seq<Attempt>, key: nat) {
    exists i :: 0 <= i < |trail| && trail[i].key == key && KeyFailure(trail[i].reply)
  }

  /** The keys counted for convergence failed in this request. */
  ghost predicate HitsTried(trail: seq<Attempt>, hits: set<nat>) { forall k :: k in hits ==> FailedIn(trail, k) }

  /** Both keys are exhausted by the same account-level failure. */
  ghost predicate ShareFailure(keys: seq<KeyEntry>, a: nat, b: nat) {
    && a < |keys| && b < |keys| && keys[a].exhausted && keys[b].exhausted
    && keys[a].reason == keys[b].reason && IsAccountLevel(keys[a].reason)
  }

  /** The last attempt and an earlier one with another key both exhausted their keys, by
      the same account-level failure. */
  ghost predicate ConvergedOn(keys: seq<KeyEntry>, trail: seq<Attempt>) {
    && trail != [] && KeyFailure(trail[|trail| - 1].reply)
    && exists i :: 0 <= i < |trail| - 1 && KeyFailure(trail[i].reply) && trail[i].key != trail[|trail| - 1].key
         && ShareFailure(keys, trail[i].key, trail[|trail| - 1].key)
  }

  lemma HitsGrow(trail: seq<Attempt>, hits: set<nat>, a: Attempt)
    requires HitsTried(trail, hits)
    ensures HitsTried(trail + [a], hits)
    ensures KeyFailure(a.reply) ==> FailedIn(trail + [a], a.key)
  {
    var grown := trail + [a];
    forall k | k in hits
      ensures FailedIn(grown, k)
    {
      assert FailedIn(trail, k);
      var i :| 0 <= i < |trail| && trail[i].key == k && KeyFailure(trail[i].reply);
      assert grown[i] == trail[i];
    }
    assert grown[|trail|] == a;
  }

  lemma HitConverges(keys: seq<KeyEntry>, trail: seq<Attempt>, hits: set<nat>, a: Attempt, h: nat)
    requires HitsTried(trail, hits) && h in hits && h != a.key && ShareFailure(keys, h, a.key) && KeyFailure(a.reply)
    ensures ConvergedOn(keys, trail + [a])
  {
    assert FailedIn(trail, h);
    var i :| 0 <= i < |trail| && trail[i].key == h && KeyFailure(trail[i].reply);
    assert (trail + [a])[i] == trail[i];
  }

  lemma SelectKeyGainsNothing(t: PoolState, now: nat)
    requires Inv(t)
    ensures var t' := SelectKeyStep(t, now).0;
            Inv(t') && NoneGained(t.keys, t'.keys, now) && t'.inFlight == t.inFlight
  {
    SelectKeyKeepsInv(t, now);
    FirstCooledComplete(t.keys, now, 0);
  }

  lemma NextActiveGainsNothing(t: PoolState, after: nat, now: nat)
    requires Inv(t)
    ensures var t' := NextActiveStep(t, after, now).0;
            Inv(t') && NoneGained(t.keys, t'.keys, now) && t'.inFlight == t.inFlight
  {
    StepKeepsInv(t, SelectNextActive(after), now, NextActiveStep(t, after, now).0, NextActiveStep(t, after, now).1);
    FirstCooledComplete(t.keys, now, 0);
  }

  /** While the bound key works, `selectKey` moves the counter one step; unless it
      returns that very key, the counter is now closer to it. */
  lemma SelectKeyCloses(t: PoolState, client: string, now: nat)
    requires Inv(t) && Settled(t, client, now)
    ensures var (t', r) := SelectKeyStep(t, now);
            && t' == t.(rr := NextCounter(t.rr)) && r >= 0
            && Inv(t') && Settled(t', client, now)
            && (r != t.bound[client] ==> Distance(t', client, now) < Distance(t, client, now))
  {
    var n, key := |t.keys|, t.bound[client];
    CyclicActiveComplete(t.keys, t.rr % n);
    CounterKeepsInv(t, NextCounter(t.rr));
    StepsToDecreases(t.rr, key, n);
    Modular.ModSmall(key, n);
  }

  lemma SelectKeyIgnoresInFlight(t: PoolState, key: nat, now: nat)
    requires Inv(t) && key < |t.keys|
    ensures SelectKeyStep(AcquireStep(t, key), now)
         == (AcquireStep(SelectKeyStep(t, now).0, key), SelectKeyStep(t, now).1)
    ensures SelectKeyStep(t, now).0.inFlight == t.inFlight
    ensures -1 <= SelectKeyStep(t, now).1 < |t.keys| == |SelectKeyStep(t, now).0.keys|
  {
  }

  // ---------------------------------------------------------------------------
  // The loop

  datatype Why = Success | PassThrough | Converged | NoOtherKey

  datatype Outcome =
    | AllKeysExhausted
    | SendFailed(retryable: bool)
    | Response(status: nat, key: nat, why: Why)

  /** The i-th attempt got the i-th reply of the upstream. */
  ghost predicate Matches(trail: seq<Attempt>, upstream: nat -> Upstream) {
    forall j: nat :: j < |trail| ==> trail[j].reply == upstream(j)
  }

  /** Every attempt before the `n`-th got an error status. */
  ghost predicate Rejected(trail: seq<Attempt>, n: int) {
    forall j :: 0 <= j < n && j < |trail| ==> trail[j].reply.Reply? && trail[j].reply.status >= 400
  }

  /** Loop variables of the request besides the pool. */
  datatype Locals = Locals(retries: nat, code: Reason, streak: nat)

  ghost predicate LoopInv(s0: PoolState, s: PoolState, client: string, now: Time,
                          trail: seq<Attempt>, l: Locals, hits: set<nat>) {
    && TrailInv(s0, s, now, trail) && Rejected(trail, |trail|)
    && Tally(s, client, now, trail, l.retries) && l.retries <= 2
    && Converging(s.keys, now, l.code, l.streak, hits) && l.streak <= 1 && HitsTried(trail, hits)
  }

  /** The loop's measure went down, lexicographically. */
  ghost predicate Progress(s: PoolState, retries: nat, s': PoolState, retries': nat, client: string, now: Time)
    requires Inv(s) && Inv(s')
  {
    var (c, c') := (CountAvailable(s.keys, now), CountAvailable(s'.keys, now));
    var (d, d') := (Distance(s, client, now), Distance(s', client, now));
    c' < c || (c' == c && retries <= retries' <= 2 && (d' < d || (d' == d && retries < retries')))
  }

  /** Every pass that goes on uses up at least one of the sends that are left. */
  lemma ProgressUses(s: PoolState, retries: nat, s': PoolState, retries': nat, client: string, now: Time)
    requires Inv(s) && Inv(s') && retries <= 2 && retries' <= 2 && |s'.keys| == |s.keys|
    requires Progress(s, retries, s', retries', client, now) && CountAvailable(s.keys, now) > 0
    ensures Potential(s', client, now, retries') < Potential(s, client, now, retries)
  {
    hide CountAvailable, Distance, Inv, SendsPerKey;
    var c, c', per := CountAvailable(s.keys, now), CountAvailable(s'.keys, now), SendsPerKey(|s.keys|);
    DistanceBound(s', client, now);
    if c' < c {
      Modular.Distribute(c - 1, 0, per);
      Modular.ProductNonNegative(c - 1, per);
      if c' > 0 {
        Modular.ScaledGap(c' - 1, c - 1, per);
      }
    }
  }

  lemma ConvergingKept(keys: seq<KeyEntry>, keys': seq<KeyEntry>, now: Time, l: Locals, hits: set<nat>)
    requires Converging(keys, now, l.code, l.streak, hits) && NoneGained(keys, keys', now)
    ensures Converging(keys', now, l.code, l.streak, hits)
  {
  }

  /** A reply in hand: `key` was selected from `s`, got `u`, and its body is open. */
  ghost predicate InHand(s0: PoolState, s: PoolState, client: string, now: nat, trail: seq<Attempt>, l: Locals,
                         hits: set<nat>, mid: PoolState, key: nat, u: Upstream) {
    && client != "" && now < PERMANENT_END && KnownReply(u) && u.Reply?
    && LoopInv(s0, s, client, now, trail, l, hits)
    && SelectForClientStep(s, client, now, mid, key) && Inv(mid) && key < |s.keys|
  }

  /** A 429 with retries left: same key again, or one key fewer if it also failed. */
  lemma RetrySameKey(s0: PoolState, s: PoolState, client: string, now: nat, trail: seq<Attempt>, l: Locals,
                     hits: set<nat>, mid: PoolState, key: nat, u: Upstream)
    requires InHand(s0, s, client, now, trail, l, hits, mid, key, u) && TooMany(u) && l.retries < 2
    ensures var t := AfterReply(mid, key, u, now);
            && LoopInv(s0, t, client, now, trail + [Attempt(key, u)], l.(retries := l.retries + 1), hits)
            && Progress(s, l.retries, t, l.retries + 1, client, now)
  {
    hide SelectForClientStep, Inv, FailedOnce, UsedUp, FromAvailable, NoneGained, Active, StepsTo, Count429, FailedIn;
    hide IsAccountLevel, MarkStep, AfterReply;
    var t := AfterReply(mid, key, u, now);
    ReplyStep(s, client, now, mid, key, u);
    TrailGrows(s0, s, now, trail, t, key, u);
    TallyGrows(s, client, now, trail, l.retries, t, key, u, l.retries + 1);
    ConvergingKept(s.keys, t.keys, now, l, hits);
    HitsGrow(trail, hits, Attempt(key, u));
    if KeyFailure(u) {
      CountAvailableDrops(s.keys, t.keys, now, key);
    } else {
      CountAvailableShrinks(s.keys, t.keys, now);
    }
  }

  /** The key is used up, by its reply or by the third 429: one available key fewer,
      whatever a selector recovers next. */
  lemma UseUpKey(s0: PoolState, s: PoolState, client: string, now: nat, trail: seq<Attempt>, l: Locals,
                 hits: set<nat>, t: PoolState, key: nat, u: Upstream, l': Locals)
    requires LoopInv(s0, s, client, now, trail, l, hits)
    requires Inv(t) && t.inFlight == s.inFlight && NoneGained(s.keys, t.keys, now)
    requires key < |s.keys| && Available(s.keys[key], now) && !Available(t.keys[key], now)
    requires Settled(s, client, now) ==> key == s.bound[client]
    requires u.Reply? && u.status >= 400 && l'.retries <= 2
    ensures TrailInv(s0, t, now, trail + [Attempt(key, u)]) && Rejected(trail + [Attempt(key, u)], |trail| + 1)
    ensures Tally(t, client, now, trail + [Attempt(key, u)], l'.retries)
    ensures Converging(t.keys, now, l.code, l.streak, hits)
    ensures HitsTried(trail + [Attempt(key, u)], hits)
    ensures Progress(s, l.retries, t, l'.retries, client, now)
  {
    HitsGrow(trail, hits, Attempt(key, u));
    TrailGrows(s0, s, now, trail, t, key, u);
    TallyGrows(s, client, now, trail, l.retries, t, key, u, l'.retries);
    ConvergingKept(s.keys, t.keys, now, l, hits);
    CountAvailableDrops(s.keys, t.keys, now, key);
  }

  /** The key works but the reply is an error: the counter moves towards it. */
  lemma KeepKey(s0: PoolState, s: PoolState, client: string, now: nat, trail: seq<Attempt>, l: Locals,
                hits: set<nat>, mid: PoolState, key: nat, u: Upstream)
    requires InHand(s0, s, client, now, trail, l, hits, mid, key, u)
    requires u.status >= 400 && !KeyFailure(u) && !TooMany(u)
    ensures var (t', r) := SelectKeyStep(mid, now);
            && r >= 0 && Inv(t')
            && (r != key ==> LoopInv(s0, t', client, now, trail + [Attempt(key, u)], l, hits))
            && (r != key ==> Progress(s, l.retries, t', l.retries, client, now))
  {
    hide SelectForClientStep, FailedOnce, UsedUp, FromAvailable, Available, Active, StepsTo;
    hide Inv, NoneGained, Count429, FailedIn, IsAccountLevel, SelectKeyStep;
    ReplyStep(s, client, now, mid, key, u);
    SelectKeyCloses(mid, client, now);
    var t' := SelectKeyStep(mid, now).0;
    TrailGrows(s0, s, now, trail, t', key, u);
    TallyGrows(s, client, now, trail, l.retries, t', key, u, l.retries);
    ConvergingKept(s.keys, t'.keys, now, l, hits);
    HitsGrow(trail, hits, Attempt(key, u));
    CountAvailableShrinks(s.keys, t'.keys, now);
  }

  lemma TwoHitsShare(keys: seq<KeyEntry>, now: Time, code: Reason, hits: set<nat>, key: nat) returns (h: nat)
    requires Converging(keys, now, code, 1, hits)
    requires key < |keys| && keys[key].exhausted && keys[key].reason == code
    ensures h in hits && ShareFailure(keys, h, key)
  {
    h :| h in hits;
  }

  // What the request as a whole guarantees.

  /** Who was tried: only keys available at the start, never again after a failure,
      and none with more than three 429 replies. */
  ghost predicate FairTrail(s0: PoolState, now: Time, trail: seq<Attempt>) {
    && FromAvailable(s0.keys, now, trail) && FailedOnce(trail)
    && (forall k: nat :: k < |s0.keys| ==> Count429(trail, k) <= 3)
  }

  /** How the request ended, against the pool as it is left. */
  ghost predicate Concluded(s0: PoolState, s: PoolState, now: Time, trail: seq<Attempt>, outcome: Outcome) {
    && FairTrail(s0, now, trail) && Rejected(trail, |trail| - 1) && NoneGained(s0.keys, s.keys, now)
    && match outcome
       case AllKeysExhausted =>
         s.inFlight == s0.inFlight && NoneAvailable(s.keys, now) && Rejected(trail, |trail|)
       case SendFailed(retryable) =>
         s.inFlight == s0.inFlight && trail != [] && trail[|trail| - 1].reply == SendError(retryable)
       case Response(status, key, why) =>
         && key < |s0.keys| && s.inFlight == AcquireStep(s0, key).inFlight
         && trail != [] && trail[|trail| - 1].key == key
         && trail[|trail| - 1].reply.Reply? && trail[|trail| - 1].reply.status == status
         && (why == Success <==> status < 400) && why != PassThrough
         && (why == Converged ==> ConvergedOn(s.keys, trail))
         && (why == NoOtherKey && KeyFailure(trail[|trail| - 1].reply) ==> NoneAvailable(s.keys, now))
  }

  lemma AtMostThree(s: PoolState, client: string, now: Time, trail: seq<Attempt>, retries: nat, key: nat, u: Upstream)
    requires Tally(s, client, now, trail, retries) && retries <= 2
    requires key < |s.keys| && Available(s.keys[key], now)
    ensures forall k: nat :: k < |s.keys| ==> Count429(trail + [Attempt(key, u)], k) <= 3
  {
    forall k: nat | k < |s.keys|
      ensures Count429(trail + [Attempt(key, u)], k) <= 3
    {
      Count429Grows(trail, Attempt(key, u), k);
    }
  }

  lemma ReplyConcludes(s0: PoolState, s: PoolState, client: string, now: nat, trail: seq<Attempt>, l: Locals,
                       hits: set<nat>, mid: PoolState, key: nat, u: Upstream)
    requires InHand(s0, s, client, now, trail, l, hits, mid, key, u)
    ensures FairTrail(s0, now, trail + [Attempt(key, u)]) && Rejected(trail + [Attempt(key, u)], |trail|)
    ensures var t := AfterReply(mid, key, u, now);
            && Inv(t) && key < |t.keys| && TrailInv(s0, t, now, trail + [Attempt(key, u)])
            && AcquireStep(t, key).inFlight == AcquireStep(s0, key).inFlight
  {
    hide SelectForClientStep, Inv, Tally, Distance, Settled, Converging, MarkStep, Available;
    var t := AfterReply(mid, key, u, now);
    ReplyStep(s, client, now, mid, key, u);
    TrailGrows(s0, s, now, trail, t, key, u);
    AtMostThree(s, client, now, trail, l.retries, key, u);
  }

  /** The pool after a third 429 on `key`: marked, and the next key looked for. */
  function Switched(t: PoolState, key: nat, now: nat): (PoolState, int)
    requires Inv(t)
  {
    NextActiveStep(MarkStep(t, key, RateLimited, now), key, now)
  }

  lemma SwitchStep(s0: PoolState, s: PoolState, client: string, now: nat, trail: seq<Attempt>, l: Locals,
                   hits: set<nat>, mid: PoolState, key: nat, u: Upstream)
    requires InHand(s0, s, client, now, trail, l, hits, mid, key, u) && TooMany(u)
    ensures var t := AfterReply(mid, key, u, now);
            && Inv(t) && key < |t.keys|
            && var (t3, r) := Switched(t, key, now);
               && Inv(t3) && LoopInv(s0, t3, client, now, trail + [Attempt(key, u)], l.(retries := 0), hits)
               && Progress(s, l.retries, t3, 0, client, now)
               && (r < 0 ==> NoneAvailable(t3.keys, now))
  {
    hide SelectForClientStep, Inv, FromAvailable, UsedUp, FailedOnce, Tally, HitsTried, Distance;
    hide AfterReply, MarkStep, NextActiveStep, Available;
    assert Inv(s);
    var t := AfterReply(mid, key, u, now);
    ReplyStep(s, client, now, mid, key, u);
    MarkedIsUsedUp(s, t, key, now);
    var t2 := MarkStep(t, key, RateLimited, now);
    var t3 := NextActiveStep(t2, key, now).0;
    NextActiveSound(t2, key, now);
    NextActiveGainsNothing(t2, key, now);
    NoneGainedTrans(s.keys, t2.keys, t3.keys, now);
    UseUpKey(s0, s, client, now, trail, l, hits, t3, key, u, l.(retries := 0));
  }

  /** A third 429: the key is marked rate limited and the next active key takes over. */
  method SwitchAfter429(pool: KeyPool, b: ResponseBody, key: nat, now: nat, ghost t: PoolState)
    returns (next: int)
    requires pool.Valid() && Inv(t) && key < |t.keys| && pool.Abs() == AcquireStep(t, key)
    requires b.open && b.pool == pool && b.key == key
    modifies pool, pool.entries, pool.inFlight, b
    ensures pool.Valid() && pool.clock == old(pool.clock)
    ensures (pool.Abs(), next) == Switched(t, key, now)
  {
    ReleaseAfterMark(t, key, RateLimited, now);
    pool.MarkExhausted(key, RateLimited, now);
    b.Close();
    next := pool.SelectNextActiveKey(key, now);
  }

  /** With no key left, the request is sent once more to have a 429 to pass on; while
      the clock stands still that send finds no key either. */
  method PassOn429(pool: KeyPool, client: string, again: Upstream, probe: nat -> bool, now: nat, ghost t: PoolState)
    returns (outcome: Outcome, body: ResponseBody?, ghost s': PoolState)
    requires OnlyHardFailures(pool.Abs()) && pool.Valid() && pool.clock <= now
    requires client != "" && pool.Abs() == t && Inv(t)
    requires NoneAvailable(t.keys, now)
    modifies pool, pool.entries, pool.inFlight, pool.tokenSamples
    ensures pool.Valid() && pool.clock <= now && s' == pool.Abs()
    ensures outcome == AllKeysExhausted && body == null
    ensures s'.keys == t.keys && s'.inFlight == t.inFlight
  {
    var res, again', mid := ForwardRequest(pool, client, again, probe, now, now);
    SelectForClientSound(t, client, now, mid, if res.NoKey? then -1 else res.key);
    outcome, body, s' := ToOutcome(res, PassThrough), again', mid;
  }

  function ToOutcome(res: Forwarded, why: Why): Outcome {
    match res
    case NoKey => AllKeysExhausted
    case Failed(_, retryable) => SendFailed(retryable)
    case Responded(key, status) => Response(status, key, why)
  }

  lemma MarkedIsUsedUp(s: PoolState, t: PoolState, key: nat, now: nat)
    requires Inv(s) && Inv(t) && NoneGained(s.keys, t.keys, now) && now < PERMANENT_END
    requires key < |s.keys| && Available(s.keys[key], now)
    requires t.keys[key].exhausted ==> !Available(t.keys[key], now)
    ensures var t2 := MarkStep(t, key, RateLimited, now);
            Inv(t2) && t2.inFlight == t.inFlight && NoneGained(s.keys, t2.keys, now) && !Available(t2.keys[key], now)
  {
    var reset := Period.ResolveReset(t.reset, now);
    if !t.keys[key].exhausted {
      MarkedIsUnavailable(t.keys[key], RateLimited, reset, now);
    }
    KeyUpdateKeepsInv(t, key, Marked(t.keys[key], RateLimited, reset, now));
  }

  /** The reason a key is exhausted, as `exhaustReasonAt` reports it. */
  function ReasonAt(e: KeyEntry): Reason { if e.exhausted then e.reason else NoReason }

  /** Convergence bookkeeping. A reply that is no account-level failure leaves the
      streak as it is. */
  function NextLocals(l: Locals, reason: Reason): Locals {
    if !IsAccountLevel(reason) then l
    else if reason == l.code then l.(streak := l.streak + 1)
    else l.(code := reason, streak := 1)
  }

  function NextHits(l: Locals, reason: Reason, hits: set<nat>, key: nat): set<nat> {
    if !IsAccountLevel(reason) then hits else if reason == l.code then hits + {key} else {key}
  }

  /** After a failed key the streak stands for different keys of this request that share
      its failure; at two, the request has converged. */
  lemma ConvergenceStep(s: PoolState, t: PoolState, now: Time, trail: seq<Attempt>, l: Locals, hits: set<nat>,
                        key: nat, u: Upstream)
    requires Converging(s.keys, now, l.code, l.streak, hits) && l.streak <= 1 && NoneGained(s.keys, t.keys, now)
    requires HitsTried(trail, hits) && KeyFailure(u)
    requires key < |s.keys| && Available(s.keys[key], now) && !Available(t.keys[key], now) && t.keys[key].exhausted
    ensures var l' := NextLocals(l, ReasonAt(t.keys[key]));
            var hits' := NextHits(l, ReasonAt(t.keys[key]), hits, key);
            && Converging(t.keys, now, l'.code, l'.streak, hits') && HitsTried(trail + [Attempt(key, u)], hits')
            && (l'.streak >= 2 ==> ConvergedOn(t.keys, trail + [Attempt(key, u)]))
  {
    hide FailedIn, ConvergedOn;
    ConvergingKept(s.keys, t.keys, now, l, hits);
    HitsGrow(trail, hits, Attempt(key, u));
    var reason := ReasonAt(t.keys[key]);
    if IsAccountLevel(reason) && reason == l.code {
      var h := TwoHitsShare(t.keys, now, reason, hits, key);
      HitConverges(t.keys, trail, hits, Attempt(key, u), h);
    }
  }

  /** What `selectKey` finds after a failed key: if nothing, or that key again, then
      nothing in the pool is available. */
  lemma SelectAfterFailure(t: PoolState, key: nat, now: nat)
    requires Inv(t) && key < |t.keys| && !Available(t.keys[key], now) && t.keys[key].exhausted
    ensures var (t', r) := SelectKeyStep(t, now);
            && Inv(t') && NoneGained(t.keys, t'.keys, now) && t'.inFlight == t.inFlight
            && t'.keys[key] == t.keys[key]
            && (r < 0 || r == key ==> NoneAvailable(t'.keys, now))
  {
    var (t', r) := SelectKeyStep(t, now);
    SelectKeySound(t, now);
    SelectKeyGainsNothing(t, now);
    SelectorStep(t, SelectKey, now, t', r, key);
  }

  lemma ErrorStep(s0: PoolState, s: PoolState, client: string, now: nat, trail: seq<Attempt>, l: Locals,
                  hits: set<nat>, mid: PoolState, key: nat, u: Upstream)
    requires InHand(s0, s, client, now, trail, l, hits, mid, key, u) && u.status >= 400 && !TooMany(u)
    ensures var t := AfterReply(mid, key, u, now);
            && Inv(t) && key < |t.keys|
            && var (t', r) := SelectKeyStep(t, now);
               var reason := ReasonAt(t.keys[key]);
               var l' := NextLocals(l, reason);
               && Inv(t') && t'.inFlight == t.inFlight && NoneGained(t.keys, t'.keys, now)
               && (l'.streak >= 2 ==> ConvergedOn(t.keys, trail + [Attempt(key, u)]))
               && ((r < 0 || r == key) && KeyFailure(u) ==> NoneAvailable(t'.keys, now))
               && (l'.streak <= 1 && r >= 0 && r != key ==>
                     && LoopInv(s0, t', client, now, trail + [Attempt(key, u)], l', NextHits(l, reason, hits, key))
                     && Progress(s, l.retries, t', l'.retries, client, now))
  {
    var t := AfterReply(mid, key, u, now);
    ReplyStep(s, client, now, mid, key, u);
    if KeyFailure(u) {
      FailureStep(s0, s, client, now, trail, l, hits, t, key, u);
    } else {
      SelectKeyGainsNothing(mid, now);
      KeepKey(s0, s, client, now, trail, l, hits, mid, key, u);
    }
  }

  lemma FailureStep(s0: PoolState, s: PoolState, client: string, now: nat, trail: seq<Attempt>, l: Locals,
                    hits: set<nat>, t: PoolState, key: nat, u: Upstream)
    requires LoopInv(s0, s, client, now, trail, l, hits) && KeyFailure(u)
    requires Inv(t) && t.inFlight == s.inFlight && NoneGained(s.keys, t.keys, now)
    requires key < |s.keys| && Available(s.keys[key], now) && !Available(t.keys[key], now) && t.keys[key].exhausted
    requires Settled(s, client, now) ==> key == s.bound[client]
    ensures var (t', r) := SelectKeyStep(t, now);
            var reason := ReasonAt(t.keys[key]);
            var l' := NextLocals(l, reason);
            && Inv(t') && t'.inFlight == t.inFlight && NoneGained(t.keys, t'.keys, now)
            && (l'.streak >= 2 ==> ConvergedOn(t.keys, trail + [Attempt(key, u)]))
            && (r < 0 || r == key ==> NoneAvailable(t'.keys, now))
            && (l'.streak <= 1 ==>
                  && LoopInv(s0, t', client, now, trail + [Attempt(key, u)], l', NextHits(l, reason, hits, key))
                  && Progress(s, l.retries, t', l'.retries, client, now))
  {
    hide StepsTo, FailedOnce, UsedUp, FromAvailable, SelectKeyStep, Count429, HitsTried, ConvergedOn;
    var t' := SelectKeyStep(t, now).0;
    var l' := NextLocals(l, ReasonAt(t.keys[key]));
    SelectAfterFailure(t, key, now);
    NoneGainedTrans(s.keys, t.keys, t'.keys, now);
    UseUpKey(s0, s, client, now, trail, l, hits, t', key, u, l');
    ConvergenceStep(s, t, now, trail, l, hits, key, u);
    ConvergingKept(t.keys, t'.keys, now, l', NextHits(l, ReasonAt(t.keys[key]), hits, key));
  }

  datatype AfterReplyVerdict = Stop(why: Why) | Again(l: Locals, probe: bool)

  /** An error reply that is no 429: stop on convergence, or when the pool has no
      other key to offer; otherwise close the body and go round again. */
  method AfterError(pool: KeyPool, b: ResponseBody, key: nat, l: Locals, now: nat, ghost t: PoolState)
    returns (verdict: AfterReplyVerdict)
    requires pool.Valid() && Inv(t) && key < |t.keys| && pool.Abs() == AcquireStep(t, key)
    requires b.open && b.pool == pool && b.key == key
    modifies pool, pool.entries, pool.inFlight, b
    ensures pool.Valid() && pool.clock == old(pool.clock)
    ensures var l' := NextLocals(l, ReasonAt(t.keys[key]));
            var (t', r) := SelectKeyStep(t, now);
            if l'.streak >= 2 then verdict == Stop(Converged) && b.open && pool.Abs() == AcquireStep(t, key)
            else if r < 0 || r == key then verdict == Stop(NoOtherKey) && b.open && pool.Abs() == AcquireStep(t', key)
            else verdict.Again? && verdict.l == l' && pool.Abs() == t'
  {
    hide Inv, SelectKeyStep;
    SelectKeyIgnoresInFlight(t, key, now);
    SelectKeyKeepsInv(t, now);
    var reason := pool.ExhaustReasonAt(key);
    var l' := l;
    if IsAccountLevel(reason) {
      if reason == l.code {
        l' := l.(streak := l.streak + 1);
      } else {
        l' := l.(code := reason, streak := 1);
      }
    }
    if l'.streak >= 2 {
      return Stop(Converged);
    }
    var next := pool.SelectKey(now);
    if next < 0 || next == key {
      return Stop(NoOtherKey);
    }
    var probe := pool.entries[next].exhausted;
    AcquireRelease(SelectKeyStep(t, now).0, key);
    b.Close();
    return Again(l', probe);
  }

  // How each way out of the loop concludes the request.

  lemma NoKeyConcludes(s0: PoolState, s: PoolState, client: string, now: nat, trail: seq<Attempt>, l: Locals,
                       hits: set<nat>, s': PoolState)
    requires LoopInv(s0, s, client, now, trail, l, hits)
    requires s'.inFlight == s.inFlight && s'.keys == s.keys && NoneAvailable(s'.keys, now)
    ensures Concluded(s0, s', now, trail, AllKeysExhausted)
  {
  }

  lemma ResponseConcludes(s0: PoolState, s: PoolState, client: string, now: nat, trail: seq<Attempt>, l: Locals,
                          hits: set<nat>, mid: PoolState, key: nat, u: Upstream, s': PoolState, why: Why)
    requires InHand(s0, s, client, now, trail, l, hits, mid, key, u)
    requires s'.inFlight == AcquireStep(AfterReply(mid, key, u, now), key).inFlight
    requires NoneGained(AfterReply(mid, key, u, now).keys, s'.keys, now)
    requires (why == Success <==> u.status < 400) && why != PassThrough
    requires why == Converged ==> ConvergedOn(s'.keys, trail + [Attempt(key, u)])
    requires why == NoOtherKey && KeyFailure(u) ==> NoneAvailable(s'.keys, now)
    ensures Concluded(s0, s', now, trail + [Attempt(key, u)], Response(u.status, key, why))
  {
    ReplyConcludes(s0, s, client, now, trail, l, hits, mid, key, u);
    NoneGainedTrans(s0.keys, AfterReply(mid, key, u, now).keys, s'.keys, now);
  }

  /** What one pass decides: go round again, or end the request. */
  datatype Verdict = GoOn(l: Locals, probe: bool) | Done(outcome: Outcome)

  /** What the loop makes of a reply `u` that left the pool in state `t` with the slot of
      `key` held: the verdict, and the pool `s'` afterwards. */
  ghost predicate Handled(t: PoolState, key: nat, u: Upstream, l: Locals, now: nat, verdict: Verdict, s': PoolState)
    requires u.Reply? && Inv(t) && key < |t.keys|
  {
    if u.status < 400 then verdict == Done(Response(u.status, key, Success)) && s' == AcquireStep(t, key)
    else if TooMany(u) then
      if l.retries < 2 then verdict.GoOn? && verdict.l == l.(retries := l.retries + 1) && s' == t
      else
        var (t3, r) := Switched(t, key, now);
        if r >= 0 then verdict.GoOn? && verdict.l == l.(retries := 0) && s' == t3
        else verdict == Done(AllKeysExhausted) && s'.keys == t3.keys && s'.inFlight == t3.inFlight
    else
      var l' := NextLocals(l, ReasonAt(t.keys[key]));
      var (t', r) := SelectKeyStep(t, now);
      if l'.streak >= 2 then verdict == Done(Response(u.status, key, Converged)) && s' == AcquireStep(t, key)
      else if r < 0 || r == key then
        verdict == Done(Response(u.status, key, NoOtherKey)) && s' == AcquireStep(t', key)
      else verdict.GoOn? && verdict.l == l' && s' == t'
  }

  /** A success after a desperation probe marks the key recovered; the key that was
      forwarded is active already, so that changes nothing. */
  method AcceptReply(pool: KeyPool, key: nat, probe: bool, ghost t: PoolState)
    requires pool.Valid() && key < |t.keys| && !t.keys[key].exhausted && pool.Abs() == AcquireStep(t, key)
    modifies pool.entries
    ensures pool.Valid() && pool.Abs() == AcquireStep(t, key)
  {
    if probe {
      var changed := pool.MarkRecovered(key);
    }
  }

  lemma SwitchedSound(t: PoolState, key: nat, now: nat)
    requires Inv(t) && key < |t.keys| && OnlyHardFailures(t)
    ensures var (t3, r) := Switched(t, key, now);
            Inv(t3) && OnlyHardFailures(t3) && -1 <= r < |t3.keys| && (r == -1 ==> NoneAvailable(t3.keys, now))
  {
    var t2 := MarkStep(t, key, RateLimited, now);
    var (t3, r) := Switched(t, key, now);
    StepKeepsInv(t, MarkExhausted(key, RateLimited), now, t2, -1);
    HardFailureStep(t, MarkExhausted(key, RateLimited), now, t2, -1);
    NextActiveSound(t2, key, now);
    NextActiveGainsNothing(t2, key, now);
    HardFailureStep(t2, SelectNextActive(key), now, t3, r);
  }

  /** A 429 once the retries are used up: another key takes over, or none is left. */
  method HandleThird429(pool: KeyPool, client: string, b: ResponseBody, key: nat, u: Upstream, again: Upstream,
                        wake: nat -> bool, l: Locals, probe: bool, now: nat, ghost t: PoolState)
    returns (verdict: Verdict)
    requires pool.Valid() && pool.clock <= now && b.open && b.pool == pool && b.key == key
    requires Inv(t) && key < |t.keys| && OnlyHardFailures(t) && pool.Abs() == AcquireStep(t, key)
    requires TooMany(u) && l.retries >= 2 && client != ""
    modifies pool, pool.entries, pool.inFlight, pool.tokenSamples, b
    ensures pool.Valid() && pool.clock <= now && Handled(t, key, u, l, now, verdict, pool.Abs())
    ensures verdict.Done? ==> !verdict.outcome.Response?
  {
    hide KeyPool.Valid, KeyPool.Abs, Inv, OnlyHardFailures, AcquireStep, NoneAvailable, Switched;
    SwitchedSound(t, key, now);
    var next := SwitchAfter429(pool, b, key, now, t);
    if next >= 0 {
      return GoOn(l.(retries := 0), probe);
    }
    var outcome, body;
    ghost var s';
    outcome, body, s' := PassOn429(pool, client, again, wake, now, Switched(t, key, now).0);
    return Done(outcome);
  }

  /** What the loop does with a reply in hand. */
  method HandleReply(pool: KeyPool, client: string, b: ResponseBody, key: nat, u: Upstream, again: Upstream,
                     wake: nat -> bool, l: Locals, probe: bool, now: nat, ghost t: PoolState)
    returns (verdict: Verdict, body: ResponseBody?)
    requires pool.Valid() && pool.clock <= now && b.open && b.pool == pool && b.key == key
    requires Inv(t) && key < |t.keys| && OnlyHardFailures(t) && pool.Abs() == AcquireStep(t, key)
    requires u.Reply? && client != "" && (u.status < 400 ==> !t.keys[key].exhausted)
    modifies pool, pool.entries, pool.inFlight, pool.tokenSamples, b
    ensures pool.Valid() && pool.clock <= now && Handled(t, key, u, l, now, verdict, pool.Abs())
    ensures (verdict.Done? && verdict.outcome.Response?) <==> body != null
    ensures body != null ==> body == b && b.open && verdict.outcome.key == key
  {
    hide KeyPool.Valid, KeyPool.Abs, Inv, OnlyHardFailures, AcquireStep, Switched, SelectKeyStep;
    body := null;
    if u.status < 400 {
      AcceptReply(pool, key, probe, t);
      verdict, body := Done(Response(u.status, key, Success)), b;
    } else if u.status == 429 && l.retries < 2 {
      AcquireRelease(t, key);
      b.Close();
      verdict := GoOn(l.(retries := l.retries + 1), probe);
    } else if u.status == 429 {
      verdict := HandleThird429(pool, client, b, key, u, again, wake, l, probe, now, t);
    } else {
      var next := AfterError(pool, b, key, l, now, t);
      if next.Stop? {
        verdict, body := Done(Response(u.status, key, next.why)), b;
      } else {
        verdict := GoOn(next.l, next.probe);
      }
    }
  }

  // ---------------------------------------------------------------------------
  // With the clock still

  ghost predicate PassOk(s0: PoolState, s: PoolState, s': PoolState, client: string, now: nat,
                         trail: seq<Attempt>, l: Locals, verdict: Verdict, hits: set<nat>)
    requires Inv(s)
  {
    match verdict
    case GoOn(l', probe) =>
      Inv(s') && LoopInv(s0, s', client, now, trail, l', hits) && Progress(s, l.retries, s', l'.retries, client, now)
    case Done(outcome) => Concluded(s0, s', now, trail, outcome)
  }

  /** The keys counted for convergence once a reply is handled. */
  function HitsAfter(t: PoolState, key: nat, u: Upstream, l: Locals, hits: set<nat>): set<nat>
    requires u.Reply? && key < |t.keys|
  {
    if u.status >= 400 && !TooMany(u) then NextHits(l, ReasonAt(t.keys[key]), hits, key) else hits
  }

  /** A pass at a still clock: the loop goes on with its invariant kept and its measure
      down, or the request is concluded. */
  lemma PassHolds(s0: PoolState, s: PoolState, client: string, now: nat, trail: seq<Attempt>, l: Locals,
                  hits: set<nat>, mid: PoolState, key: nat, u: Upstream, t: PoolState, verdict: Verdict, s': PoolState)
    requires Inv(s) && InHand(s0, s, client, now, trail, l, hits, mid, key, u)
    requires t == AfterReply(mid, key, u, now) && Inv(t) && key < |t.keys| && u.Reply?
    requires Handled(t, key, u, l, now, verdict, s')
    ensures PassOk(s0, s, s', client, now, trail + [Attempt(key, u)], l, verdict, HitsAfter(t, key, u, l, hits))
  {
    hide Inv, InHand, LoopInv, AfterReply, Progress, Concluded, NextLocals, NextHits, ConvergedOn, Switched;
    NoneGainedSame(t.keys, now);
    if u.status < 400 {
      ResponseConcludes(s0, s, client, now, trail, l, hits, mid, key, u, s', Success);
    } else if TooMany(u) {
      if l.retries < 2 {
        RetrySameKey(s0, s, client, now, trail, l, hits, mid, key, u);
      } else {
        SwitchStep(s0, s, client, now, trail, l, hits, mid, key, u);
        var (t3, r) := Switched(t, key, now);
        if r < 0 {
          NoKeyConcludes(s0, t3, client, now, trail + [Attempt(key, u)], l.(retries := 0), hits, s');
        }
      }
    } else {
      ErrorPassHolds(s0, s, client, now, trail, l, hits, mid, key, u, t, verdict, s');
    }
  }

  lemma ErrorPassHolds(s0: PoolState, s: PoolState, client: string, now: nat, trail: seq<Attempt>, l: Locals,
                       hits: set<nat>, mid: PoolState, key: nat, u: Upstream, t: PoolState, verdict: Verdict,
                       s': PoolState)
    requires Inv(s) && InHand(s0, s, client, now, trail, l, hits, mid, key, u)
    requires t == AfterReply(mid, key, u, now) && Inv(t) && key < |t.keys| && u.Reply?
    requires Handled(t, key, u, l, now, verdict, s')
    requires u.status >= 400 && !TooMany(u)
    ensures PassOk(s0, s, s', client, now, trail + [Attempt(key, u)], l, verdict,
                   NextHits(l, ReasonAt(t.keys[key]), hits, key))
  {
    hide Inv, InHand, LoopInv, AfterReply, Progress, Concluded, NextLocals, NextHits, ConvergedOn, SelectKeyStep;
    NoneGainedSame(t.keys, now);
    ErrorStep(s0, s, client, now, trail, l, hits, mid, key, u);
    if verdict.Done? {
      ResponseConcludes(s0, s, client, now, trail, l, hits, mid, key, u, s', verdict.outcome.why);
    }
  }

  // ---------------------------------------------------------------------------
  // The loop as a whole

  /** Before a pass: the loop invariant, and sends enough left. */
  ghost predicate LoopAt(s0: PoolState, s: PoolState, client: string, now: nat, trail: seq<Attempt>, l: Locals,
                         hits: set<nat>, upstream: nat -> Upstream) {
    && Inv(s0) && Inv(s) && OnlyHardFailures(s0) && client != "" && now < PERMANENT_END
    && LoopInv(s0, s, client, now, trail, l, hits) && l.retries <= 2 && Matches(trail, upstream)
    && |trail| + Potential(s, client, now, l.retries) <= Potential(s0, client, now, 0)
  }

  /** The end: how the request concluded, and how often it was sent at most. */
  ghost predicate Ended(s0: PoolState, s: PoolState, now: nat, trail: seq<Attempt>, outcome: Outcome,
                        upstream: nat -> Upstream) {
    && Concluded(s0, s, now, trail, outcome) && OnlyHardFailures(s) && Matches(trail, upstream)
    && |trail| <= CountAvailable(s0.keys, now) * SendsPerKey(|s0.keys|)
  }

  lemma LoopStarts(s: PoolState, client: string, now: nat, upstream: nat -> Upstream)
    requires Inv(s) && OnlyHardFailures(s) && client != "" && now < PERMANENT_END
    ensures LoopAt(s, s, client, now, [], Locals(0, NoReason, 0), {}, upstream)
  {
    hide Inv, Potential, OnlyHardFailures, Settled;
    assert Inv(s);
  }

  lemma HardKept(s0: PoolState, s: PoolState, client: string, now: nat, trail: seq<Attempt>, l: Locals,
                 hits: set<nat>, upstream: nat -> Upstream)
    requires LoopAt(s0, s, client, now, trail, l, hits, upstream)
    ensures OnlyHardFailures(s)
  {
  }

  lemma HardAtEnd(s0: PoolState, s: PoolState, now: Time, trail: seq<Attempt>, outcome: Outcome)
    requires OnlyHardFailures(s0) && Concluded(s0, s, now, trail, outcome)
    ensures OnlyHardFailures(s)
  {
  }

  lemma NoKeyEnds(s0: PoolState, s: PoolState, client: string, now: nat, trail: seq<Attempt>, l: Locals,
                  hits: set<nat>, upstream: nat -> Upstream, mid: PoolState)
    requires LoopAt(s0, s, client, now, trail, l, hits, upstream)
    requires SelectForClientStep(s, client, now, mid, -1) && mid.inFlight == s.inFlight
    ensures Ended(s0, mid, now, trail, AllKeysExhausted, upstream)
  {
    hide Inv, LoopInv, SelectForClientStep, Potential, OnlyHardFailures, Concluded, NoneAvailable;
    SelectForClientSound(s, client, now, mid, -1);
    NoKeyConcludes(s0, s, client, now, trail, l, hits, mid);
    HardAtEnd(s0, mid, now, trail, AllKeysExhausted);
    PotentialBounds(s0, client, now, 0);
  }

  lemma SendFailedEnds(s0: PoolState, s: PoolState, client: string, now: nat, trail: seq<Attempt>, l: Locals,
                       hits: set<nat>, upstream: nat -> Upstream, mid: PoolState, key: nat)
    requires LoopAt(s0, s, client, now, trail, l, hits, upstream) && upstream(|trail|).SendError?
    requires SelectForClientStep(s, client, now, mid, key) && Inv(mid) && key < |s.keys|
    ensures var u := upstream(|trail|);
            Ended(s0, mid, now, trail + [Attempt(key, u)], SendFailed(u.retryable), upstream)
  {
    hide Inv, SelectForClientStep, Tally, Distance, Settled, Converging, AfterReply, Available, HitsTried;
    hide Potential, OnlyHardFailures, CountAvailable, SendsPerKey;
    var u, trail' := upstream(|trail|), trail + [Attempt(key, upstream(|trail|))];
    ReplyStep(s, client, now, mid, key, Reply(0, None));
    SomeAvailable(s.keys, now, key);
    TrailGrows(s0, s, now, trail, mid, key, u);
    AtMostThree(s, client, now, trail, l.retries, key, u);
    assert trail'[..|trail|] == trail;
    HardAtEnd(s0, mid, now, trail', SendFailed(u.retryable));
    PotentialBounds(s, client, now, l.retries);
    PotentialBounds(s0, client, now, 0);
  }

  /** A reply in hand is fit to be handled. */
  lemma ReplyFit(s0: PoolState, s: PoolState, client: string, now: nat, trail: seq<Attempt>, l: Locals,
                 hits: set<nat>, upstream: nat -> Upstream, mid: PoolState, key: nat)
    requires LoopAt(s0, s, client, now, trail, l, hits, upstream)
    requires KnownReply(upstream(|trail|)) && upstream(|trail|).Reply?
    requires SelectForClientStep(s, client, now, mid, key) && Inv(mid) && key < |s.keys|
    ensures InHand(s0, s, client, now, trail, l, hits, mid, key, upstream(|trail|))
    ensures var u := upstream(|trail|);
            var t := AfterReply(mid, key, u, now);
            && Inv(t) && key < |t.keys| && OnlyHardFailures(t)
            && (u.status < 400 ==> !t.keys[key].exhausted)
    ensures CountAvailable(s.keys, now) > 0
  {
    hide Inv, SelectForClientStep, Potential, AfterReply, Available, CountAvailable, Tally, Converging, HitsTried;
    var u := upstream(|trail|);
    ReplyConcludes(s0, s, client, now, trail, l, hits, mid, key, u);
    ReplyStep(s, client, now, mid, key, u);
    if !KeyFailure(u) {
      ActiveNow(mid, key, client, now);
    }
    SomeAvailable(s.keys, now, key);
  }

  /** After a pass the request is at its end, or the loop stands before the next pass. */
  lemma PassDone(s0: PoolState, s: PoolState, client: string, now: nat, trail: seq<Attempt>, l: Locals,
                 hits: set<nat>, upstream: nat -> Upstream, mid: PoolState, key: nat, t: PoolState, verdict: Verdict,
                 s': PoolState)
    requires LoopAt(s0, s, client, now, trail, l, hits, upstream)
    requires InHand(s0, s, client, now, trail, l, hits, mid, key, upstream(|trail|))
    requires t == AfterReply(mid, key, upstream(|trail|), now) && Inv(t) && key < |t.keys|
    requires CountAvailable(s.keys, now) > 0 && upstream(|trail|).Reply?
    requires Handled(t, key, upstream(|trail|), l, now, verdict, s')
    ensures var u := upstream(|trail|);
            var trail' := trail + [Attempt(key, u)];
            && (verdict.Done? ==> Ended(s0, s', now, trail', verdict.outcome, upstream))
            && (verdict.GoOn? ==>
                  && LoopAt(s0, s', client, now, trail', verdict.l, HitsAfter(t, key, u, l, hits), upstream)
                  && Progress(s, l.retries, s', verdict.l.retries, client, now))
  {
    hide Inv, InHand, LoopInv, Handled, AfterReply, Potential, OnlyHardFailures, Concluded, CountAvailable, Progress;
    hide HitsAfter;
    var u := upstream(|trail|);
    PassHolds(s0, s, client, now, trail, l, hits, mid, key, u, t, verdict, s');
    PotentialBounds(s, client, now, l.retries);
    PotentialBounds(s0, client, now, 0);
    if verdict.Done? {
      HardAtEnd(s0, s', now, trail + [Attempt(key, u)], verdict.outcome);
    } else {
      PassProgress(s0, s, client, now, trail, l, hits, key, u, verdict, HitsAfter(t, key, u, l, hits), s');
    }
  }

  lemma PassProgress(s0: PoolState, s: PoolState, client: string, now: nat, trail: seq<Attempt>, l: Locals,
                     hits: set<nat>, key: nat, u: Upstream, verdict: Verdict, hits': set<nat>, s': PoolState)
    requires Inv(s) && LoopInv(s0, s, client, now, trail, l, hits) && verdict.GoOn?
    requires CountAvailable(s.keys, now) > 0
    requires PassOk(s0, s, s', client, now, trail + [Attempt(key, u)], l, verdict, hits')
    ensures Inv(s') && l.retries <= 2 && verdict.l.retries <= 2
    ensures Potential(s', client, now, verdict.l.retries) < Potential(s, client, now, l.retries)
  {
    hide Inv, Progress, Potential;
    ProgressUses(s, l.retries, s', verdict.l.retries, client, now);
  }

  // ---------------------------------------------------------------------------
  // A target with a single key

  /** The last of these replies ends a request without a pool: a failed send, anything but
      a 429, or the third 429. */
  predicate PlainEnd(upstream: nat -> Upstream, sent: nat) {
    && 1 <= sent <= 3
    && (forall j: nat :: j < sent - 1 ==> TooMany(upstream(j)))
    && (TooMany(upstream(sent - 1)) ==> sent == 3)
  }

  /** The same loop without a key pool: only a 429 is sent again, twice at most. */
  method RunPlainLoop(upstream: nat -> Upstream) returns (last: Upstream, sent: nat)
    ensures PlainEnd(upstream, sent) && last == upstream(sent - 1)
  {
    var retries := 0;
    sent := 0;
    while true
      invariant sent == retries <= 2
      invariant forall j: nat :: j < sent ==> TooMany(upstream(j))
      decreases 2 - retries
    {
      last := upstream(sent);
      sent := sent + 1;
      if last.SendError? || last.status < 400 {
        break;
      }
      if last.status == 429 && retries < 2 {
        retries := retries + 1;
        continue;
      }
      break;
    }
  }
}

/** Why the key-retry loop of one request ends: with the clock held still, each pass
    uses up an available key, or brings the 32-bit round-robin counter one step closer
    to the key the client is bound to, or uses up a 429 retry. How often it sends follows
    from the same measure. */
module RetryMeasure {
  import opened Clock
  import opened KeyState
  import Modular
  import opened KeySelection

  // ---------------------------------------------------------------------------
  // Available keys

  function CountAvailable(keys: seq<KeyEntry>, now: Time): nat {
    if keys == [] then 0
    else (if Available(keys[0], now) then 1 else 0) + CountAvailable(keys[1..], now)
  }

  /** Keys that were not available did not change, so none became available; a key that
      changed is exhausted by a hard failure if at all. */
  ghost predicate NoneGained(keys: seq<KeyEntry>, keys': seq<KeyEntry>, now: Time) {
    && |keys'| == |keys|
    && forall i :: 0 <= i < |keys| ==>
         keys'[i] == keys[i] || (Available(keys[i], now) && (keys'[i].exhausted ==> IsHardFailure(keys'[i].reason)))
  }

  lemma {:induction false} CountAvailableShrinks(keys: seq<KeyEntry>, keys': seq<KeyEntry>, now: Time)
    requires NoneGained(keys, keys', now)
    ensures CountAvailable(keys', now) <= CountAvailable(keys, now)
  {
    if keys != [] {
      CountAvailableShrinks(keys[1..], keys'[1..], now);
    }
  }

  lemma {:induction false} CountAvailableDrops(keys: seq<KeyEntry>, keys': seq<KeyEntry>, now: Time, i: nat)
    requires NoneGained(keys, keys', now) && i < |keys|
    requires Available(keys[i], now) && !Available(keys'[i], now)
    ensures CountAvailable(keys', now) < CountAvailable(keys, now)
  {
    if i == 0 {
      CountAvailableShrinks(keys[1..], keys'[1..], now);
    } else {
      CountAvailableDrops(keys[1..], keys'[1..], now, i - 1);
    }
  }

  lemma {:induction false} SomeAvailable(keys: seq<KeyEntry>, now: Time, i: nat)
    requires i < |keys| && Available(keys[i], now)
    ensures CountAvailable(keys, now) > 0
  {
    if i > 0 {
      SomeAvailable(keys[1..], now, i - 1);
    }
  }

  /** An exhausted key cools down past now: every code has a cooldown in the future. */
  lemma MarkedIsUnavailable(e: KeyEntry, code: Reason, reset: Time, now: nat)
    requires !e.exhausted && now < PERMANENT_END
    ensures Marked(e, code, reset, now).cooldownEnd > now
    ensures !Available(Marked(e, code, reset, now), now)
  {
  }

  // ---------------------------------------------------------------------------
  // Distance of the wrapping counter to the bound key

  /** Increments of the counter until it points at key `k`; the counter may pass
      through zero first. */
  function StepsTo(rr: nat, k: nat, n: nat): (d: nat)
    requires rr < UINT32 && k < n < UINT32
    ensures d < 2 * n
  {
    var d := Modular.CyclicDistance(rr, k, n);
    if rr + d < UINT32 then d else (UINT32 - rr) + k
  }

  /** One increment brings the counter one step closer, through the wrap as well. */
  lemma StepsToDecreases(rr: nat, k: nat, n: nat)
    requires rr < UINT32 && k < n < UINT32
    ensures StepsTo(rr, k, n) == 0 ==> rr % n == k
    ensures StepsTo(rr, k, n) > 0 ==> StepsTo(NextCounter(rr), k, n) == StepsTo(rr, k, n) - 1
  {
    Modular.ModSuccessor(rr, n);
    Modular.ModSmall(0, n);
    if rr + 1 < UINT32 {
      assert NextCounter(rr) == rr + 1;
    } else {
      assert NextCounter(rr) == 0;
    }
  }

  // ---------------------------------------------------------------------------
  // The client's binding

  /** The client is bound to an active key and not due for rebalancing. */
  ghost predicate Settled(s: PoolState, client: string, now: Time) {
    && client in s.bound && client in s.boundAt && s.bound[client] < |s.keys|
    && Active(s.keys[s.bound[client]])
    && Sub(now, s.boundAt[client]) < REBALANCE_INTERVAL
  }

  /** Distance of the counter to the bound key; out of reach before the client is settled. */
  ghost function Distance(s: PoolState, client: string, now: Time): nat
    requires Inv(s)
  {
    if Settled(s, client, now) then StepsTo(s.rr, s.bound[client], |s.keys|) else 2 * |s.keys|
  }

  /** Sends one key is good for at most: with `n` keys the counter takes fewer than `2n`
      steps to the bound one, and there are two retries of a 429. */
  function SendsPerKey(n: nat): nat { 2 * n + 3 }

  /** Sends the loop has left at most; none without an available key. */
  ghost function Potential(s: PoolState, client: string, now: Time, retries: nat): nat
    requires Inv(s) && retries <= 2
  {
    var c, per := CountAvailable(s.keys, now), SendsPerKey(|s.keys|);
    if c == 0 then 0
    else
      Modular.ProductNonNegative(c - 1, per);
      (c - 1) * per + Distance(s, client, now) + (3 - retries)
  }

  lemma PotentialBounds(s: PoolState, client: string, now: Time, retries: nat)
    requires Inv(s) && retries <= 2
    ensures Potential(s, client, now, retries) <= CountAvailable(s.keys, now) * SendsPerKey(|s.keys|)
    ensures CountAvailable(s.keys, now) > 0 <==> Potential(s, client, now, retries) > 0
  {
    hide CountAvailable, Distance, Inv, SendsPerKey;
    var c, per := CountAvailable(s.keys, now), SendsPerKey(|s.keys|);
    DistanceBound(s, client, now);
    if c > 0 {
      Modular.Distribute(c - 1, 1, per);
      Modular.ProductNonNegative(c - 1, per);
    }
  }

  lemma DistanceBound(s: PoolState, client: string, now: Time)
    requires Inv(s)
    ensures Distance(s, client, now) + 3 <= SendsPerKey(|s.keys|)
  {
  }

  /** A settled client gets its key again, and the pool does not change. */
  lemma SettledRepeats(s: PoolState, client: string, now: nat, s': PoolState, idx: int)
    requires Inv(s) && client != "" && SelectForClientStep(s, client, now, s', idx)
    requires Settled(s, client, now)
    ensures s' == s && idx == s.bound[client]
  {
  }

  lemma KeptBindingNotDue(s: PoolState, client: string, now: nat)
    requires Inv(s) && ChooseForClient(s, client, now).idx >= 0 && !ChooseForClient(s, client, now).rebind
    ensures Settled(s, client, now)
  {
    OverflowSound(s, s.rr, now);
    if client !in s.bound {
      OverflowSound(s, RoundRobin(s.keys, s.rr, |s.keys|).1, now);
    }
  }

  /** Whatever stage chose the key, afterwards the client is settled on it, no key
      became available or unavailable, and the in-flight counts are the same. */
  lemma SelectionSettles(s: PoolState, client: string, now: nat, s': PoolState, idx: int)
    requires Inv(s) && client != "" && SelectForClientStep(s, client, now, s', idx)
    ensures |s'.keys| == |s.keys| && s'.inFlight == s.inFlight
    ensures idx >= 0 ==> idx < |s.keys| && Settled(s', client, now) && s'.bound[client] == idx
    ensures idx >= 0 ==> Available(s.keys[idx], now)
    ensures forall i :: 0 <= i < |s.keys| ==>
      s'.keys[i] == s.keys[i] || (i == idx && s'.keys[i] == Recovered(s.keys[i]))
  {
    var ch := ChooseForClient(s, client, now);
    ChoiceSound(s, client, now);
    ChoiceKeys(s, client, now);
    ChoiceTakesEffect(s, ch, client, now, s');
    if ch.idx >= 0 && !ch.rebind {
      KeptBindingNotDue(s, client, now);
    }
  }

  /** A desperation probe is never forwarded while the clock stands still: when
      `selectKey` returns a key that is still exhausted, the next client selection
      finds nothing. */
  lemma ProbeNeverForwarded(s: PoolState, now: nat, client: string)
    requires Inv(s) && client != ""
    requires var (s', r) := SelectKeyStep(s, now); r >= 0 && s'.keys[r].exhausted
    ensures SelectKeyStep(s, now).0 == s && ChooseForClient(s, client, now).idx == -1
  {
    SelectKeySound(s, now);
    ChoiceSound(s, client, now);
  }
}

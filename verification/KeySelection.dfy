/** What the selectors guarantee about the key they return, and when they return none. */
module KeySelection {
  import opened Clock
  import opened KeyState
  import Modular

  // ---------------------------------------------------------------------------
  // Cyclic search

  lemma {:induction false} CyclicActiveSkips(keys: seq<KeyEntry>, start: nat, i: nat, d: nat)
    requires i <= d < |keys|
    requires CyclicActive(keys, start, i) == -1
    ensures !Active(keys[(start + d) % |keys|])
    decreases |keys| - i
  {
    if i < d {
      CyclicActiveSkips(keys, start, i + 1, d);
    }
  }

  lemma {:induction false} CyclicActiveFinds(keys: seq<KeyEntry>, start: nat, i: nat)
    requires i <= |keys|
    ensures CyclicActive(keys, start, i) >= 0 ==> Active(keys[CyclicActive(keys, start, i)])
    decreases |keys| - i
  {
    if i < |keys| {
      CyclicActiveFinds(keys, start, i + 1);
    }
  }

  /** The cyclic search finds an active key exactly when there is one. */
  lemma CyclicActiveComplete(keys: seq<KeyEntry>, start: nat)
    ensures CyclicActive(keys, start, 0) >= 0 ==> Active(keys[CyclicActive(keys, start, 0)])
    ensures CyclicActive(keys, start, 0) == -1 <==> forall j :: 0 <= j < |keys| ==> !Active(keys[j])
  {
    CyclicActiveFinds(keys, start, 0);
    if CyclicActive(keys, start, 0) == -1 {
      forall j | 0 <= j < |keys|
        ensures !Active(keys[j])
      {
        var d := Modular.CyclicDistance(start, j, |keys|);
        Modular.CyclicDistanceHits(start, j, |keys|);
        CyclicActiveSkips(keys, start, 0, d);
      }
    }
  }

  lemma {:induction false} FirstCooledComplete(keys: seq<KeyEntry>, now: Time, i: nat)
    requires i <= |keys|
    ensures var r := FirstCooled(keys, now, i);
            && (r >= 0 ==> r >= i && Available(keys[r], now) && forall j :: i <= j < r ==> !Available(keys[j], now))
            && (r == -1 <==> forall j :: i <= j < |keys| ==> !Available(keys[j], now))
    decreases |keys| - i
  {
    if i < |keys| && !Available(keys[i], now) {
      FirstCooledComplete(keys, now, i + 1);
    }
  }

  /** Nothing to hand out: every key is blocked or cooling down past `now`. */
  ghost predicate NoneAvailable(keys: seq<KeyEntry>, now: Time) {
    forall j :: 0 <= j < |keys| ==> !Available(keys[j], now)
  }

  lemma ActiveIsAvailable(s: PoolState, i: nat, now: nat)
    requires Inv(s) && i < |s.keys| && Active(s.keys[i])
    ensures Available(s.keys[i], now)
  {
  }

  // ---------------------------------------------------------------------------
  // selectKeyForClient

  /** The overflow stages return an active, available key, or none is available. */
  lemma OverflowSound(s: PoolState, rr: nat, now: nat)
    requires Inv(s)
    ensures var ch := Overflow(s.keys, rr, now);
            && |ch.keys| == |s.keys| && -1 <= ch.idx < |s.keys| && ch.rr == rr && (ch.idx >= 0 <==> ch.rebind)
            && (ch.idx >= 0 ==> Available(s.keys[ch.idx], now) && Active(ch.keys[ch.idx]))
            && (ch.idx == -1 <==> NoneAvailable(s.keys, now))
            && (ch.idx == -1 ==> ch.keys == s.keys)
  {
    CyclicActiveComplete(s.keys, rr % |s.keys|);
    FirstCooledComplete(s.keys, now, 0);
    var a := CyclicActive(s.keys, rr % |s.keys|, 0);
    if a >= 0 {
      ActiveIsAvailable(s, a, now);
    }
  }

  lemma BestActiveIsActive(s: PoolState, now: Time)
    requires |s.inFlight| == |s.keys| && |s.history| == |s.keys|
    ensures var best := BestActive(s, now, 0, -1);
            && (best >= 0 ==> Active(s.keys[best]))
            && (best == -1 ==> forall j :: 0 <= j < |s.keys| ==> !Active(s.keys[j]))
  {
    BestActiveIsLeast(s, now);
  }

  /** A key handed out was available and is active; none is handed out exactly when none
      is available. */
  ghost predicate SoundChoice(s: PoolState, ch: Choice, now: nat) {
    && |ch.keys| == |s.keys| && -1 <= ch.idx < |s.keys| && ch.rr < UINT32
    && (ch.idx >= 0 ==> Available(s.keys[ch.idx], now) && Active(ch.keys[ch.idx]))
    && (ch.idx == -1 <==> NoneAvailable(s.keys, now))
    && (ch.idx == -1 ==> ch.keys == s.keys)
  }

  lemma NewClientSound(s: PoolState, now: nat)
    requires Inv(s)
    ensures var ch := ChooseForNewClient(s, now);
            SoundChoice(s, ch, now) && (ch.idx >= 0 ==> ch.rebind)
  {
    hide BestActive, HasSignal, Overflow, RoundRobin, CyclicActive, FirstCooled;
    OverflowSound(s, s.rr, now);
    BestActiveIsActive(s, now);
    var best := BestActive(s, now, 0, -1);
    var (idx, rr) := RoundRobin(s.keys, s.rr, |s.keys|);
    OverflowSound(s, rr, now);
    if best >= 0 {
      ActiveIsAvailable(s, best, now);
      if idx >= 0 {
        ActiveIsAvailable(s, idx, now);
      }
    }
  }

  lemma ChoiceSound(s: PoolState, client: string, now: nat)
    requires Inv(s)
    ensures var ch := ChooseForClient(s, client, now);
            && |ch.keys| == |s.keys| && -1 <= ch.idx < |s.keys| && ch.rr < UINT32
            && (ch.idx >= 0 ==> Available(s.keys[ch.idx], now) && Active(ch.keys[ch.idx]))
            && (ch.idx >= 0 && !ch.rebind ==> client in s.bound && s.bound[client] == ch.idx)
            && (ch.idx == -1 <==> NoneAvailable(s.keys, now))
            && (ch.idx == -1 ==> ch.keys == s.keys)
  {
    hide BestActive, Overflow, ScoreLess, ChooseForNewClient;
    OverflowSound(s, s.rr, now);
    NewClientSound(s, now);
    BestActiveIsActive(s, now);
    var best := BestActive(s, now, 0, -1);
    if best >= 0 {
      ActiveIsAvailable(s, best, now);
    }
    if client in s.bound && Active(s.keys[s.bound[client]]) {
      ActiveIsAvailable(s, s.bound[client], now);
    }
  }

  lemma ChoiceKeys(s: PoolState, client: string, now: nat)
    requires Inv(s)
    ensures var ch := ChooseForClient(s, client, now);
            ch.keys == s.keys || (0 <= ch.idx < |s.keys| && ch.keys == s.keys[ch.idx := Recovered(s.keys[ch.idx])])
  {
  }

  lemma ChoiceTakesEffect(s: PoolState, ch: Choice, client: string, now: Time, s': PoolState)
    requires ChoiceStep(s, ch, client, now, s')
    ensures s'.keys == ch.keys && s'.rr == ch.rr && s'.inFlight == s.inFlight && s'.history == s.history
    ensures if ch.rebind && ch.idx >= 0
            then client in s'.bound && client in s'.boundAt && s'.bound[client] == ch.idx && s'.boundAt[client] == now
            else s'.bound == s.bound && s'.boundAt == s.boundAt
  {
  }

  /** Soundness and completeness of `selectKeyForClient`: the key it returns was
      available, is active afterwards and is the client's binding; it returns -1
      exactly when every key is blocked or still cooling down. */
  lemma SelectForClientSound(s: PoolState, client: string, now: nat, s': PoolState, idx: int)
    requires Inv(s) && client != "" && SelectForClientStep(s, client, now, s', idx)
    ensures |s'.keys| == |s.keys| && -1 <= idx < |s.keys|
    ensures idx >= 0 ==> Available(s.keys[idx], now) && Active(s'.keys[idx])
    ensures idx >= 0 ==> client in s'.bound && s'.bound[client] == idx
    ensures idx == -1 <==> NoneAvailable(s.keys, now)
    ensures idx == -1 ==> s'.keys == s.keys
  {
    ChoiceSound(s, client, now);
  }

  // ---------------------------------------------------------------------------
  // selectKey

  ghost predicate AllRateLimited(keys: seq<KeyEntry>, now: Time) {
    forall j :: 0 <= j < |keys| && !keys[j].blocked ==>
      keys[j].exhausted && keys[j].reason == RateLimited && keys[j].cooldownEnd > now
  }

  /** `r` may be probed, and is the first of those with the least remaining cooldown. */
  ghost predicate FirstLeastRemaining(keys: seq<KeyEntry>, r: nat, now: Time)
    requires r < |keys|
  {
    && Probeable(keys[r])
    && (forall j :: 0 <= j < |keys| && Probeable(keys[j]) ==> Remaining(keys[r], now) <= Remaining(keys[j], now))
    && (forall j :: 0 <= j < r && Probeable(keys[j]) ==> Remaining(keys[r], now) < Remaining(keys[j], now))
  }

  lemma {:induction false} LeastRemainingIsLeast(keys: seq<KeyEntry>, now: Time, i: nat, best: int)
    requires i <= |keys| && -1 <= best < i
    requires best >= 0 ==> Probeable(keys[best])
    requires forall j :: 0 <= j < i && Probeable(keys[j]) ==>
      best >= 0 && Remaining(keys[best], now) <= Remaining(keys[j], now)
    requires forall j :: 0 <= j < best && Probeable(keys[j]) ==> Remaining(keys[best], now) < Remaining(keys[j], now)
    ensures var r := LeastRemaining(keys, now, i, best);
            && (r == -1 <==> forall j :: 0 <= j < |keys| ==> !Probeable(keys[j]))
            && (r >= 0 ==> FirstLeastRemaining(keys, r, now))
    decreases |keys| - i
  {
    if i < |keys| {
      var better := Probeable(keys[i]) && (best == -1 || Remaining(keys[i], now) < Remaining(keys[best], now));
      LeastRemainingIsLeast(keys, now, i + 1, if better then i else best);
    }
  }

  /** `selectKey` never returns a blocked key; it returns -1 exactly when every
      unblocked key is cooling down as rate limited; and a key it returns still
      exhausted is a probe: nothing was available, and among the unblocked keys not
      rate limited it is the first with the least (saturating) remaining cooldown. */
  lemma SelectKeySound(s: PoolState, now: nat)
    requires Inv(s)
    ensures var (s', r) := SelectKeyStep(s, now);
            && |s'.keys| == |s.keys| && -1 <= r < |s.keys|
            && (r >= 0 ==> !s.keys[r].blocked)
            && (r == -1 <==> AllRateLimited(s.keys, now))
            && (r >= 0 && !Active(s'.keys[r]) ==>
                  s' == s && NoneAvailable(s.keys, now) && FirstLeastRemaining(s.keys, r, now))
  {
    CyclicActiveComplete(s.keys, s.rr % |s.keys|);
    FirstCooledComplete(s.keys, now, 0);
    LeastRemainingIsLeast(s.keys, now, 0, -1);
  }

  lemma NextActiveSound(s: PoolState, after: AfterIndex, now: nat)
    requires Inv(s)
    ensures var (s', r) := NextActiveStep(s, after, now);
            && |s'.keys| == |s.keys| && -1 <= r < |s.keys|
            && (r >= 0 ==> Available(s.keys[r], now) && Active(s'.keys[r]))
            && (r == -1 <==> NoneAvailable(s.keys, now))
  {
    CyclicActiveComplete(s.keys, after + 1);
    FirstCooledComplete(s.keys, now, 0);
    var a := CyclicActive(s.keys, after + 1, 0);
    if a >= 0 {
      ActiveIsAvailable(s, a, now);
    }
  }

  // ---------------------------------------------------------------------------
  // Least load

  /** No active key scores strictly below `r`. */
  ghost predicate LeastLoaded(s: PoolState, r: nat, now: Time)
    requires r < |s.keys| && |s.inFlight| == |s.keys| && |s.history| == |s.keys|
  {
    forall j: nat :: j < |s.keys| && Active(s.keys[j]) ==> !ScoreLess(s, j, r, now)
  }

  ghost predicate FirstLeastLoaded(s: PoolState, r: nat, now: Time)
    requires r < |s.keys| && |s.inFlight| == |s.keys| && |s.history| == |s.keys|
  {
    && Active(s.keys[r]) && LeastLoaded(s, r, now)
    && (forall j: nat :: j < r && Active(s.keys[j]) ==> ScoreLess(s, r, j, now))
  }

  lemma {:induction false} BestActiveFrom(s: PoolState, now: Time, i: nat, best: int)
    requires i <= |s.keys| && -1 <= best < i
    requires |s.inFlight| == |s.keys| && |s.history| == |s.keys|
    requires best >= 0 ==> Active(s.keys[best])
    requires forall j: nat :: j < i && Active(s.keys[j]) ==> best >= 0 && !ScoreLess(s, j, best, now)
    requires forall j: nat :: j < best && Active(s.keys[j]) ==> ScoreLess(s, best, j, now)
    ensures var r := BestActive(s, now, i, best);
            && (r == -1 ==> forall j :: 0 <= j < |s.keys| ==> !Active(s.keys[j]))
            && (r >= 0 ==> FirstLeastLoaded(s, r, now))
    decreases |s.keys| - i
  {
    if i < |s.keys| {
      var better := Active(s.keys[i]) && (best == -1 || ScoreLess(s, i, best, now));
      BestActiveFrom(s, now, i + 1, if better then i else best);
    }
  }

  /** `bestActiveKeyLocked` is the first lexicographic minimum of (in flight,
      tokens in the window) over the active keys; -1 exactly when there is none. */
  lemma BestActiveIsLeast(s: PoolState, now: Time)
    requires |s.inFlight| == |s.keys| && |s.history| == |s.keys|
    ensures var r := BestActive(s, now, 0, -1);
            && (r == -1 <==> forall j :: 0 <= j < |s.keys| ==> !Active(s.keys[j]))
            && (r >= 0 ==> FirstLeastLoaded(s, r, now))
  {
    BestActiveFrom(s, now, 0, -1);
  }

  lemma {:induction false} WindowSumNonNegative(samples: seq<TokenSample>, cutoff: Time)
    requires Positive(samples)
    ensures WindowSum(samples, cutoff) >= 0
  {
    if samples != [] {
      WindowSumNonNegative(samples[1..], cutoff);
    }
  }

  /** Without any sign of load every active key is a least loaded one. */
  lemma IdleIsLeastLoaded(s: PoolState, r: nat, now: Time)
    requires Inv(s) && !HasSignal(s, now) && r < |s.keys| && Active(s.keys[r])
    ensures LeastLoaded(s, r, now)
  {
    assert !Loaded(s, r, now);
    forall j: nat | j < |s.keys| && Active(s.keys[j])
      ensures !ScoreLess(s, j, r, now)
    {
      assert !Loaded(s, j, now);
      WindowSumNonNegative(s.history[j], now - TOKEN_WINDOW);
    }
  }

  /** A client without a binding, or whose binding is active and due for
      rebalancing, gets a key that no active key undercuts, whichever of the
      load-aware, round-robin and overflow stages picked it. */
  lemma ClientGetsLeastLoaded(s: PoolState, client: string, now: nat)
    requires Inv(s)
    requires exists j :: 0 <= j < |s.keys| && Active(s.keys[j])
    requires client in s.bound ==> Active(s.keys[s.bound[client]]) && RebalanceDue(s, client, now)
    ensures var ch := ChooseForClient(s, client, now);
            0 <= ch.idx < |s.keys| && ch.keys == s.keys && LeastLoaded(s, ch.idx, now)
  {
    BestActiveIsLeast(s, now);
    if client !in s.bound && !HasSignal(s, now) {
      var (idx, rr) := RoundRobin(s.keys, s.rr, |s.keys|);
      CyclicActiveComplete(s.keys, rr % |s.keys|);
      IdleIsLeastLoaded(s, ChooseForClient(s, client, now).idx, now);
    }
  }
}

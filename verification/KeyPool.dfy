/** The key pool of one target: arrays and maps updated in place under a mutex.

    Every method is one mutex-held step, takes the clock as an argument, and is
    proved to be the step of the same name on the pool's abstract state. */
module KeyPools {
  import opened Clock
  import opened Period
  import opened KeyState
  import opened TokenWindow
  import opened Affinity

  /** Remaining cooldown, at least zero. */
  function WaitOf(e: KeyEntry, now: Time): int { if Remaining(e, now) < 0 then 0 else Remaining(e, now) }

  /** It is nothing once the cooldown is over, and a cooldown that ends later is not shorter. */
  lemma WaitMeans(a: KeyEntry, b: KeyEntry, now: Time)
    ensures WaitOf(a, now) == 0 <==> a.cooldownEnd <= now
    ensures a.cooldownEnd <= b.cooldownEnd ==> WaitOf(a, now) <= WaitOf(b, now)
  {
  }

  /** Different keys in order of their remaining cooldown. */
  ghost predicate ByRemaining(keys: seq<KeyEntry>, found: seq<nat>, now: Time) {
    && (forall k :: 0 <= k < |found| ==> found[k] < |keys|)
    && (forall j, k :: 0 <= j < k < |found| ==> found[j] != found[k])
    && (forall j, k :: 0 <= j < k < |found| ==> WaitOf(keys[found[j]], now) <= WaitOf(keys[found[k]], now))
  }

  /** One insertion of the sort by remaining cooldown. */
  method InsertByRemaining(keys: seq<KeyEntry>, found: seq<nat>, i: nat, now: Time) returns (found': seq<nat>)
    requires i < |keys| && ByRemaining(keys, found, now) && i !in found
    ensures ByRemaining(keys, found', now)
    ensures forall k: nat :: k in found' <==> k == i || k in found
  {
    assert forall k :: 0 <= k < |found| ==> found[k] < |keys|;
    hide WaitOf, ByRemaining;
    var p := 0;
    while p < |found| && WaitOf(keys[found[p]], now) <= WaitOf(keys[i], now)
      invariant p <= |found|
      invariant forall k :: 0 <= k < p ==> WaitOf(keys[found[k]], now) <= WaitOf(keys[i], now)
    {
      p := p + 1;
    }
    found' := found[..p] + [i] + found[p..];
    InsertKeepsOrder(keys, found, p, i, now);
    InsertMembers(found, p, i);
  }

  lemma InsertMembers(found: seq<nat>, p: nat, i: nat)
    requires p <= |found|
    ensures forall k :: k in found[..p] + [i] + found[p..] <==> k == i || k in found
  {
    assert found == found[..p] + found[p..];
  }

  lemma InsertKeepsOrder(keys: seq<KeyEntry>, found: seq<nat>, p: nat, i: nat, now: Time)
    requires i < |keys| && ByRemaining(keys, found, now) && i !in found && p <= |found|
    requires forall k :: 0 <= k < p ==> WaitOf(keys[found[k]], now) <= WaitOf(keys[i], now)
    requires p < |found| ==> WaitOf(keys[i], now) <= WaitOf(keys[found[p]], now)
    ensures ByRemaining(keys, found[..p] + [i] + found[p..], now)
  {
    hide WaitOf;
    var all := found[..p] + [i] + found[p..];
    forall k | 0 <= k < |all|
      ensures all[k] == if k < p then found[k] else if k == p then i else found[k - 1]
    {
    }
    forall k | p <= k < |found|
      ensures WaitOf(keys[i], now) <= WaitOf(keys[found[k]], now)
    {
      if k > p {
        assert WaitOf(keys[found[p]], now) <= WaitOf(keys[found[k]], now);
      }
    }
    forall j, k | 0 <= j < k < |all|
      ensures all[j] != all[k] && WaitOf(keys[all[j]], now) <= WaitOf(keys[all[k]], now)
    {
    }
  }

  lemma TableInStep(s: PoolState)
    requires Inv(s)
    ensures s.bound.Keys == s.boundAt.Keys && "" !in s.bound && |s.bound| == |s.boundAt|
  {
    hide InRange;
    assert |s.bound| == |s.bound.Keys| && |s.boundAt| == |s.boundAt.Keys|;
  }

  lemma NothingPruned(full: seq<seq<TokenSample>>, kept: seq<seq<TokenSample>>, now: Time)
    requires |full| == |kept| && forall i :: 0 <= i < |full| ==> full[i] == [] && kept[i] == []
    ensures AllPruned(full, kept, now)
  {
  }

  class KeyPool {
    const entries: array<KeyEntry>
    const inFlight: array<int>
    const tokenSamples: array<seq<TokenSample>>
    const resetSpec: ResetSpec
    var resetTime: Time
    var rrCounter: nat
    var clientAffinity: map<string, nat>
    var clientAffinityAt: map<string, Time>
    var wakeUpCooldown: Time
    var wakeUpInProgress: bool

    /** Every sample recorded so far, and the latest clock value seen. */
    ghost var history: seq<seq<TokenSample>>
    ghost var clock: Time

    ghost function Abs(): PoolState
      reads this, entries, inFlight
    {
      PoolState(entries[..], inFlight[..], rrCounter, clientAffinity, clientAffinityAt, history, resetSpec)
    }

    ghost predicate Valid()
      reads this, entries, inFlight, tokenSamples
    {
      && Inv(Abs())
      && AllPruned(history, tokenSamples[..], clock)
    }

    lemma ValidInv()
      requires Valid()
      ensures Inv(Abs())
    {
    }

    constructor (n: nat, reset: ResetSpec, now: nat)
      requires 0 < n < UINT32 && WellFormedReset(reset)
      ensures Valid() && fresh(entries) && fresh(inFlight) && fresh(tokenSamples)
      ensures Abs() == InitialState(n, reset) && clock == now
    {
      entries := new KeyEntry[n](_ => FRESH_KEY);
      inFlight := new int[n](_ => 0);
      tokenSamples := new seq<TokenSample>[n](_ => []);
      resetSpec := reset;
      resetTime := ResolveReset(reset, now);
      rrCounter := 0;
      clientAffinity, clientAffinityAt := map[], map[];
      wakeUpCooldown, wakeUpInProgress := ZERO_TIME, false;
      history := seq(n, _ => []);
      clock := now;
      new;
      hide Inv, AllPruned;
      InitialInv(n, reset);
      NothingPruned(history, tokenSamples[..], now);
    }

    // -------------------------------------------------------------------------
    // Token window and load

    method PruneExpiredSamples(i: nat, now: Time)
      requires Valid() && i < entries.Length && clock <= now
      modifies this`clock, tokenSamples
      ensures Valid() && Abs() == old(Abs()) && clock == now
      ensures tokenSamples[i] != [] ==> tokenSamples[i][0].at >= now - TOKEN_WINDOW
    {
      var kept := Prune(tokenSamples[i], now);
      PruneOne(history, tokenSamples[..], clock, i, kept, now);
      ghost var pruned := tokenSamples[..][i := kept];
      clock := now;
      tokenSamples[i] := kept;
      assert tokenSamples[..] == pruned;
    }

    method TokenSumInWindow(i: nat, now: Time) returns (sum: int)
      requires Valid() && i < entries.Length && clock <= now
      modifies this`clock, tokenSamples
      ensures Valid() && Abs() == old(Abs()) && clock == now
      ensures sum == Load(Abs(), i, now)
    {
      PruneExpiredSamples(i, now);
      assert tokenSamples[..][i] == tokenSamples[i];
      PrunedSum(history[i], tokenSamples[i], now);
      sum := SumTokens(tokenSamples[i]);
    }

    method RecordTokens(i: int, tokens: int, now: Time)
      requires Valid() && clock <= now
      modifies this`clock, this`history, tokenSamples
      ensures Valid() && clock == (if 0 <= i < entries.Length && tokens > 0 then now else old(clock))
      ensures Abs() == RecordStep(old(Abs()), i, tokens, now)
    {
      if i < 0 || i >= entries.Length || tokens <= 0 {
        return;
      }
      RecordKeepsInv(Abs(), i, tokens, now);
      hide AllPruned, PrunedFrom, DropsExpired, Inv;
      var sample := TokenSample(now, tokens);
      RecordOne(history, tokenSamples[..], clock, i, tokens, now);
      ghost var full, all := history[i := history[i] + [sample]], tokenSamples[..][i := tokenSamples[i] + [sample]];
      var kept := Prune(tokenSamples[i] + [sample], now);
      PruneOne(full, all, now, i, kept, now);
      history, clock := full, now;
      tokenSamples[i] := kept;
      assert tokenSamples[..] == all[i := kept];
    }

    method ScoreIsLess(a: int, b: int, now: Time) returns (less: bool)
      requires Valid() && clock <= now
      modifies this`clock, tokenSamples
      ensures Valid() && Abs() == old(Abs()) && old(clock) <= clock <= now
      ensures !(0 <= a < entries.Length) ==> !less
      ensures 0 <= a < entries.Length && !(0 <= b < entries.Length) ==> less
      ensures 0 <= a < entries.Length && 0 <= b < entries.Length ==> less == ScoreLess(Abs(), a, b, now)
    {
      if a < 0 || a >= entries.Length {
        return false;
      }
      if b < 0 || b >= entries.Length {
        return true;
      }
      if inFlight[a] != inFlight[b] {
        return inFlight[a] < inFlight[b];
      }
      var sa := TokenSumInWindow(a, now);
      var sb := TokenSumInWindow(b, now);
      return sa < sb;
    }

    method BestActiveKey(now: Time) returns (best: int)
      requires Valid() && clock <= now
      modifies this`clock, tokenSamples
      ensures Valid() && Abs() == old(Abs()) && old(clock) <= clock <= now
      ensures best == BestActive(Abs(), now, 0, -1)
    {
      best := -1;
      var i := 0;
      while i < entries.Length
        invariant i <= entries.Length && -1 <= best < entries.Length
        invariant Valid() && Abs() == old(Abs()) && old(clock) <= clock <= now
        invariant BestActive(Abs(), now, 0, -1) == BestActive(Abs(), now, i, best)
      {
        if Active(entries[i]) {
          var better := best == -1;
          if !better {
            better := ScoreIsLess(i, best, now);
          }
          if better {
            best := i;
          }
        }
        i := i + 1;
      }
    }

    method ActiveKeyCount() returns (count: nat)
      requires Valid()
      ensures count == CountActive(Abs().keys)
    {
      count := 0;
      var i := 0;
      while i < entries.Length
        invariant i <= entries.Length
        invariant count == CountActive(entries[..i])
      {
        assert entries[..i + 1] == entries[..i] + [entries[i]];
        if Active(entries[i]) {
          count := count + 1;
        }
        i := i + 1;
      }
      assert entries[..i] == entries[..];
    }

    // -------------------------------------------------------------------------
    // In-flight counters

    method AcquireInFlight(i: int)
      requires Valid()
      modifies inFlight
      ensures Valid() && Abs() == AcquireStep(old(Abs()), i)
    {
      if 0 <= i < inFlight.Length {
        inFlight[i] := inFlight[i] + 1;
      }
    }

    method ReleaseInFlight(i: int)
      requires Valid()
      modifies inFlight
      ensures Valid() && Abs() == ReleaseStep(old(Abs()), i)
    {
      if 0 <= i < inFlight.Length && inFlight[i] > 0 {
        inFlight[i] := inFlight[i] - 1;
      }
    }

    // -------------------------------------------------------------------------
    // Key state

    method MarkExhausted(i: int, code: Reason, now: nat)
      requires Valid()
      modifies this`resetTime, entries
      ensures Valid() && Abs() == MarkStep(old(Abs()), i, code, now)
    {
      if i < 0 || i >= entries.Length || entries[i].exhausted {
        return;
      }
      if code == QuotaExceeded && resetSpec != NoReset {
        resetTime := ResolveReset(resetSpec, now);
      }
      var reset := ResolveReset(resetSpec, now);
      entries[i] := entries[i].(exhausted := true, exhaustedAt := now,
                                reason := MarkedReason(code, reset, now),
                                cooldownEnd := CooldownFor(code, reset, now));
    }

    method BlockKey(i: int)
      requires Valid()
      modifies entries
      ensures Valid() && Abs() == BlockStep(old(Abs()), i)
    {
      if 0 <= i < entries.Length {
        entries[i] := entries[i].(blocked := true);
      }
    }

    method UnblockKey(i: int)
      requires Valid()
      modifies entries
      ensures Valid() && Abs() == UnblockStep(old(Abs()), i)
    {
      if 0 <= i < entries.Length {
        entries[i] := KeyEntry(false, ZERO_TIME, NoReason, ZERO_TIME, false);
      }
    }

    method MarkRecovered(i: int) returns (changed: bool)
      requires Valid()
      modifies entries
      ensures Valid() && (Abs(), changed) == RecoverStep(old(Abs()), i)
    {
      if i < 0 || i >= entries.Length || !entries[i].exhausted {
        return false;
      }
      entries[i] := Recovered(entries[i]);
      return true;
    }

    method ExhaustReasonAt(i: int) returns (r: Reason)
      requires Valid()
      ensures r == if InPool(Abs(), i) && Abs().keys[i].exhausted then Abs().keys[i].reason else NoReason
    {
      if i < 0 || i >= entries.Length || !entries[i].exhausted {
        return NoReason;
      }
      return entries[i].reason;
    }

    // -------------------------------------------------------------------------
    // The wake-up model: one run at a time, and none for a minute after one

    method TryWakeUp(now: Time) returns (allowed: bool)
      requires Valid()
      modifies this`wakeUpInProgress
      ensures Valid() && Abs() == old(Abs()) && clock == old(clock)
      ensures allowed <==> now >= wakeUpCooldown && !old(wakeUpInProgress)
      ensures wakeUpInProgress == (old(wakeUpInProgress) || allowed)
    {
      if now < wakeUpCooldown || wakeUpInProgress {
        return false;
      }
      wakeUpInProgress := true;
      return true;
    }

    method WakeUpComplete(now: Time)
      requires Valid()
      modifies this`wakeUpCooldown, this`wakeUpInProgress
      ensures Valid() && Abs() == old(Abs()) && clock == old(clock)
      ensures wakeUpCooldown == now + MINUTE && !wakeUpInProgress
    {
      wakeUpCooldown, wakeUpInProgress := now + MINUTE, false;
    }

    /** Exhausted and blocked keys, the shortest remaining cooldown first. */
    method GetExhaustedKeys(now: Time) returns (found: seq<nat>)
      requires Valid()
      ensures ByRemaining(Abs().keys, found, now)
      ensures forall i: nat :: i in found <==> i < |Abs().keys| && Unusable(Abs().keys[i])
    {
      found := [];
      var i := 0;
      while i < entries.Length
        invariant i <= entries.Length && ByRemaining(entries[..], found, now)
        invariant forall k: nat :: k in found <==> k < i && Unusable(entries[k])
      {
        if Unusable(entries[i]) {
          found := InsertByRemaining(entries[..], found, i, now);
        }
        i := i + 1;
      }
    }

    /** Those of them that a cheap probe may show to be working. */
    method GetProbeableExhaustedKeys(now: Time) returns (found: seq<nat>)
      requires Valid()
      ensures forall i: nat :: i in found <==> i < |Abs().keys| && CheaplyProbed(Abs().keys[i])
    {
      var all := GetExhaustedKeys(now);
      found := [];
      for k := 0 to |all|
        invariant forall i: nat :: i in found <==> i in all[..k] && CheaplyProbed(entries[i])
      {
        assert all[k] in all;
        if !IsHardFailure(entries[all[k]].reason) {
          found := found + [all[k]];
        }
      }
    }

    // -------------------------------------------------------------------------
    // Searches shared by the selectors

    method FindActive(start: nat) returns (idx: int)
      requires Valid()
      ensures idx == CyclicActive(Abs().keys, start, 0)
    {
      var n := entries.Length;
      var i := 0;
      while i < n
        invariant i <= n
        invariant CyclicActive(Abs().keys, start, 0) == CyclicActive(Abs().keys, start, i)
      {
        idx := (start + i) % n;
        if Active(entries[idx]) {
          return;
        }
        i := i + 1;
      }
      idx := -1;
    }

    /** Clears and returns the first unblocked key whose cooldown is over. */
    method RecoverCooled(now: Time) returns (idx: int)
      requires Valid()
      modifies entries
      ensures idx == FirstCooled(old(Abs()).keys, now, 0)
      ensures Valid()
      ensures Abs() == if idx >= 0
                       then old(Abs()).(keys := old(Abs()).keys[idx := Recovered(old(Abs()).keys[idx])])
                       else old(Abs())
    {
      var i := 0;
      while i < entries.Length
        invariant i <= entries.Length
        invariant Abs() == old(Abs())
        invariant FirstCooled(Abs().keys, now, 0) == FirstCooled(Abs().keys, now, i)
      {
        if !entries[i].blocked && now >= entries[i].cooldownEnd {
          entries[i] := Recovered(entries[i]);
          return i;
        }
        i := i + 1;
      }
      return -1;
    }

    // -------------------------------------------------------------------------
    // Selectors

    method SelectKey(now: Time) returns (idx: int)
      requires Valid()
      modifies this`rrCounter, entries
      ensures Valid() && (Abs(), idx) == SelectKeyStep(old(Abs()), now)
    {
      idx := FindActive(rrCounter % entries.Length);
      if idx >= 0 {
        rrCounter := NextCounter(rrCounter);
        return;
      }
      idx := RecoverCooled(now);
      if idx >= 0 {
        return;
      }
      var best, shortest := -1, 0;
      var i := 0;
      while i < entries.Length
        invariant i <= entries.Length && -1 <= best < entries.Length
        invariant best >= 0 ==> shortest == Remaining(entries[best], now)
        invariant LeastRemaining(Abs().keys, now, 0, -1) == LeastRemaining(Abs().keys, now, i, best)
      {
        if !entries[i].blocked && entries[i].reason != RateLimited {
          var remaining := Sub(entries[i].cooldownEnd, now);
          if best == -1 || remaining < shortest {
            best, shortest := i, remaining;
          }
        }
        i := i + 1;
      }
      idx := best;
    }

    method SelectNextActiveKey(after: AfterIndex, now: Time) returns (idx: int)
      requires Valid()
      modifies entries
      ensures Valid() && (Abs(), idx) == NextActiveStep(old(Abs()), after, now)
    {
      idx := FindActive(after + 1);
      if idx < 0 {
        idx := RecoverCooled(now);
      }
    }

    // -------------------------------------------------------------------------
    // Affinity table

    method Bind(client: string, idx: nat, now: Time)
      requires Valid() && client != "" && idx < entries.Length
      modifies this`clientAffinity, this`clientAffinityAt
      ensures Valid() && BindStep(old(Abs()), client, idx, now, Abs())
    {
      hide Inv, EvictionOk, BindStep, AllPruned;
      ghost var s, gone := Abs(), {};
      assert clientAffinity.Keys == clientAffinityAt.Keys && "" !in clientAffinity && |s.keys| == entries.Length by {
        TableInStep(s);
      }
      NothingToEvict(s.boundAt, client, now);
      MinusNone(s.bound);
      MinusNone(s.boundAt);
      var bound, boundAt := clientAffinity, clientAffinityAt;
      if client !in bound {
        bound, boundAt := EvictStale(bound, boundAt, client, now);
        gone := clientAffinityAt.Keys - boundAt.Keys;
      }
      BindKeepsInv(s, client, idx, now, gone);
      clientAffinity, clientAffinityAt := bound[client := idx], boundAt[client := now];
      assert Abs() == Rebind(s, client, idx, now, gone);
    }

    // -------------------------------------------------------------------------
    // Selection for a client

    /** Least loaded active key, and whether any active key shows load at all. */
    method BestWithSignal(now: Time) returns (best: int, hasSignal: bool)
      requires Valid() && clock <= now
      modifies this`clock, tokenSamples
      ensures Valid() && Abs() == old(Abs()) && old(clock) <= clock <= now
      ensures best == BestActive(Abs(), now, 0, -1)
      ensures hasSignal == HasSignal(Abs(), now)
    {
      hide AllPruned, Load, ScoreLess, SignalBefore, TableInv;
      best, hasSignal := -1, false;
      NoSignalYet(Abs(), now);
      var i := 0;
      while i < entries.Length
        invariant i <= entries.Length && -1 <= best < entries.Length
        invariant Valid() && Abs() == old(Abs()) && old(clock) <= clock <= now
        invariant BestActive(Abs(), now, 0, -1) == BestActive(Abs(), now, i, best)
        invariant hasSignal == SignalBefore(Abs(), now, i)
      {
        SignalStep(Abs(), now, i);
        if Active(entries[i]) {
          var busy := inFlight[i] > 0;
          if !busy {
            var sum := TokenSumInWindow(i, now);
            busy := sum > 0;
          }
          hasSignal := hasSignal || busy;
          var better := best == -1;
          if !better {
            better := ScoreIsLess(i, best, now);
          }
          if better {
            best := i;
          }
        }
        i := i + 1;
      }
    }

    method RoundRobinKey() returns (idx: int)
      requires Valid()
      modifies this`rrCounter
      ensures Valid() && Abs() == old(Abs()).(rr := rrCounter)
      ensures (idx, rrCounter) == RoundRobin(Abs().keys, old(rrCounter), |Abs().keys|)
    {
      var n := entries.Length;
      var i := 0;
      while i < n
        invariant i <= n && rrCounter < UINT32
        invariant RoundRobin(entries[..], old(rrCounter), n) == RoundRobin(entries[..], rrCounter, n - i)
      {
        idx := rrCounter % n;
        rrCounter := NextCounter(rrCounter);
        if Active(entries[idx]) {
          return;
        }
        i := i + 1;
      }
      idx := -1;
    }

    method OverflowKey(client: string, now: Time) returns (idx: int)
      requires Valid() && client != ""
      modifies this`clientAffinity, this`clientAffinityAt, entries
      ensures Valid()
      ensures var ch := Overflow(old(Abs()).keys, old(Abs()).rr, now);
              idx == ch.idx && ChoiceStep(old(Abs()), ch, client, now, Abs())
    {
      idx := FindActive(rrCounter % entries.Length);
      if idx < 0 {
        idx := RecoverCooled(now);
      }
      if idx >= 0 {
        Bind(client, idx, now);
      }
    }

    /** Bound client whose key is active: maybe rebalanced, else kept. */
    method ReuseBinding(client: string, now: Time) returns (idx: nat)
      requires Valid() && clock <= now
      requires client in clientAffinity && Active(entries[clientAffinity[client]])
      modifies this`clock, this`clientAffinity, this`clientAffinityAt, tokenSamples
      ensures Valid() && old(clock) <= clock <= now
      ensures var ch := ChooseForClient(old(Abs()), client, now);
              idx == ch.idx && ChoiceStep(old(Abs()), ch, client, now, Abs())
    {
      idx := clientAffinity[client];
      if Sub(now, clientAffinityAt[client]) >= REBALANCE_INTERVAL {
        var best := BestActiveKey(now);
        if best >= 0 && best != idx {
          var less := ScoreIsLess(best, idx, now);
          if less {
            idx := best;
          }
        }
        Bind(client, idx, now);
      }
    }

    method NewClientKey(client: string, now: Time) returns (idx: int)
      requires Valid() && clock <= now && client != "" && client !in clientAffinity
      modifies this`clock, this`rrCounter, this`clientAffinity, this`clientAffinityAt, entries, tokenSamples
      ensures Valid() && old(clock) <= clock <= now
      ensures var ch := ChooseForNewClient(old(Abs()), now);
              idx == ch.idx && ChoiceStep(old(Abs()), ch, client, now, Abs())
    {
      hide Inv, BestActive, HasSignal, RoundRobin, Overflow, BindStep, AllPruned;
      var best, hasSignal := BestWithSignal(now);
      if best >= 0 {
        if hasSignal {
          Bind(client, best, now);
          return best;
        }
        idx := RoundRobinKey();
        if idx >= 0 {
          Bind(client, idx, now);
          return;
        }
      }
      idx := OverflowKey(client, now);
    }

    method SelectKeyForClient(client: string, now: Time) returns (idx: int)
      requires Valid() && clock <= now
      modifies this`clock, this`rrCounter, this`clientAffinity, this`clientAffinityAt, entries, tokenSamples
      ensures Valid() && old(clock) <= clock <= now
      ensures SelectForClientStep(old(Abs()), client, now, Abs(), idx)
    {
      if client == "" {
        idx := SelectKey(now);
      } else if client !in clientAffinity {
        idx := NewClientKey(client, now);
      } else if Active(entries[clientAffinity[client]]) {
        idx := ReuseBinding(client, now);
      } else {
        idx := OverflowKey(client, now);
      }
    }
  }
}

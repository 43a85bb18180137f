/** Waking up the keys of a pool by probing them: inside a forward that found no key, and
    on an administrator's request. What a probe of a key finds is arbitrary. */
module WakeUp {
  import opened Wrappers
  import Clock
  import opened KeyState
  import KeyPools
  import KeySelection
  import KeyRuns

  /** `wakeUpProbe`: the first cheaply probed key whose probe succeeds is marked
      recovered. With hard failures only, the pool stays as it was. */
  method WakeUpProbe(pool: KeyPools.KeyPool, probe: nat -> bool, now: Clock.Time) returns (idx: int)
    requires pool.Valid()
    modifies pool.entries
    ensures pool.Valid() && -1 <= idx < |old(pool.Abs()).keys|
    ensures var s := old(pool.Abs());
            if idx >= 0 then CheaplyProbed(s.keys[idx]) && probe(idx) && pool.Abs() == RecoverStep(s, idx).0
            else pool.Abs() == s && forall i: nat :: i < |s.keys| && CheaplyProbed(s.keys[i]) ==> !probe(i)
    ensures KeyRuns.OnlyHardFailures(old(pool.Abs())) ==> pool.Abs() == old(pool.Abs())
  {
    ghost var s := pool.Abs();
    var found := pool.GetProbeableExhaustedKeys(now);
    for k := 0 to |found|
      invariant pool.Valid() && pool.Abs() == s
      invariant forall j :: 0 <= j < k ==> !probe(found[j])
    {
      assert found[k] in found;
      if probe(found[k]) {
        var changed := pool.MarkRecovered(found[k]);
        return found[k];
      }
    }
    return -1;
  }

  /** The keys an administrator's wake-up recovers: exhausted ones whose probe succeeds. */
  function Recoverable(keys: seq<KeyEntry>, probe: nat -> bool): set<nat> {
    set i: nat | i < |keys| && keys[i].exhausted && probe(i)
  }

  /** The pool after it: those keys have their exhaustion cleared, and stay blocked if they
      were; all others are as before. */
  function Woken(s: PoolState, woken: set<nat>): PoolState {
    s.(keys := seq(|s.keys|, i requires 0 <= i < |s.keys| => if i in woken then Recovered(s.keys[i]) else s.keys[i]))
  }

  /** Recovering one more key. */
  lemma WokenStep(s: PoolState, woken: set<nat>, i: nat)
    requires i < |s.keys| && i !in woken
    ensures RecoverStep(Woken(s, woken), i)
         == if s.keys[i].exhausted then (Woken(s, woken + {i}), true) else (Woken(s, woken), false)
  {
    if s.keys[i].exhausted {
      assert Woken(s, woken).keys[i := Recovered(s.keys[i])] == Woken(s, woken + {i}).keys;
    }
  }

  lemma NoneWoken(s: PoolState)
    ensures Woken(s, {}) == s
  {
    assert Woken(s, {}).keys == s.keys;
  }

  /** The first `k` keys of the list have been probed, and `woken` are those recovered. */
  ghost predicate WokenSoFar(s: PoolState, found: seq<nat>, k: nat, probe: nat -> bool, woken: set<nat>)
    requires k <= |found|
  {
    forall i: nat :: i in woken <==> i in found[..k] && i < |s.keys| && s.keys[i].exhausted && probe(i)
  }

  lemma NextWoken(s: PoolState, found: seq<nat>, k: nat, probe: nat -> bool, woken: set<nat>)
    requires k < |found| && WokenSoFar(s, found, k, probe, woken)
    requires forall i, j :: 0 <= i < j < |found| ==> found[i] != found[j]
    requires found[k] < |s.keys|
    ensures found[k] !in woken
    ensures WokenSoFar(s, found, k + 1, probe,
                       if s.keys[found[k]].exhausted && probe(found[k]) then woken + {found[k]} else woken)
  {
    assert found[..k + 1] == found[..k] + [found[k]];
  }

  lemma AllWoken(s: PoolState, found: seq<nat>, probe: nat -> bool, woken: set<nat>)
    requires WokenSoFar(s, found, |found|, probe, woken)
    requires forall i: nat :: i < |s.keys| && Unusable(s.keys[i]) ==> i in found
    ensures woken == Recoverable(s.keys, probe)
  {
    assert found[..|found|] == found;
  }

  /** `WakeUpKeys`: refused while a wake-up runs or cools down; otherwise every exhausted
      or blocked key is probed, and the count is that of the keys recovered. */
  method WakeUpKeys(pool: KeyPools.KeyPool, probe: nat -> bool, now: Clock.Time) returns (recovered: Option<nat>)
    requires pool.Valid()
    modifies pool`wakeUpInProgress, pool`wakeUpCooldown, pool.entries
    ensures pool.Valid()
    ensures recovered.None? <==> now < old(pool.wakeUpCooldown) || old(pool.wakeUpInProgress)
    ensures recovered.None? ==> pool.Abs() == old(pool.Abs())
    ensures recovered.Some? ==> pool.wakeUpCooldown == now + Clock.MINUTE && !pool.wakeUpInProgress
    ensures recovered.Some? ==>
      var woken := Recoverable(old(pool.Abs()).keys, probe);
      pool.Abs() == Woken(old(pool.Abs()), woken) && recovered.value == |woken|
  {
    hide KeyPools.KeyPool.Valid, KeyPools.KeyPool.Abs, Woken, RecoverStep, Inv, Recoverable, WokenSoFar;
    ghost var s := pool.Abs();
    var allowed := pool.TryWakeUp(now);
    if !allowed {
      return None;
    }
    var found := pool.GetExhaustedKeys(now);
    ghost var woken: set<nat> := {};
    NoneWoken(s);
    assert WokenSoFar(s, found, 0, probe, woken) by { NothingProbed(s, found, probe); }
    var count := 0;
    for k := 0 to |found|
      invariant pool.Valid() && pool.Abs() == Woken(s, woken) && count == |woken|
      invariant WokenSoFar(s, found, k, probe, woken)
    {
      var i := found[k];
      assert i in found;
      NextWoken(s, found, k, probe, woken);
      if probe(i) {
        WokenStep(s, woken, i);
        var changed := pool.MarkRecovered(i);
        if changed {
          count := count + 1;
          woken := woken + {i};
        }
      }
    }
    AllWoken(s, found, probe, woken);
    pool.WakeUpComplete(now);
    return Some(count);
  }

  lemma NothingProbed(s: PoolState, found: seq<nat>, probe: nat -> bool)
    ensures WokenSoFar(s, found, 0, probe, {})
  {
  }

  /** A wake-up makes an exhausted pool usable again exactly when the probe of some key
      succeeds that is exhausted and not blocked. */
  lemma WakeUpHelps(s: PoolState, probe: nat -> bool, now: nat)
    requires Inv(s) && KeySelection.NoneAvailable(s.keys, now)
    ensures KeySelection.NoneAvailable(Woken(s, Recoverable(s.keys, probe)).keys, now)
       <==> forall i: nat :: i < |s.keys| && s.keys[i].exhausted && !s.keys[i].blocked ==> !probe(i)
  {
    var keys := Woken(s, Recoverable(s.keys, probe)).keys;
    if i: nat :| i < |s.keys| && s.keys[i].exhausted && !s.keys[i].blocked && probe(i) {
      assert Available(keys[i], now);
    }
  }

  /** A wake-up is a run of `markRecovered` steps: it keeps the pool's invariant, and no
      key it touches stops being blocked. */
  lemma WokenKeepsInv(s: PoolState, woken: set<nat>)
    requires Inv(s)
    ensures Inv(Woken(s, woken))
    ensures forall i :: 0 <= i < |s.keys| ==> Woken(s, woken).keys[i].blocked == s.keys[i].blocked
  {
  }
}

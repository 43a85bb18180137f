/** The retry loop of one request while time passes: every selection and every reply has
    its own instant. Cooldowns run out in the meantime, so the loop need not end. */
module RetryClock {
  import opened Wrappers
  import Clock
  import Affinity
  import opened KeyState
  import KeyPools
  import KeySelection
  import KeyRuns
  import RetryMeasure
  import opened RetryLoop

  /** One pass that goes round again: the selection at `at` takes `key` and leaves the pool
      `mid`; the reply comes at `done`; pool and loop variables go on as `next` and `l`. */
  datatype Pass = Pass(at: nat, done: nat, reply: Upstream, mid: PoolState, key: nat, next: PoolState, l: Locals)

  const FIRST: Locals := Locals(0, NoReason, 0)

  ghost predicate GoesOn(s: PoolState, l: Locals, client: string, p: Pass)
    requires Inv(s)
  {
    && p.at <= p.done && p.reply.Reply?
    && SelectForClientStep(s, client, p.at, p.mid, p.key) && Inv(p.mid) && p.key < |p.mid.keys|
    && Inv(p.next)
    && var t := AfterReply(p.mid, p.key, p.reply, p.done);
       Inv(t) && p.key < |t.keys| && Handled(t, p.key, p.reply, l, p.done, GoOn(p.l, false), p.next)
  }

  /** Passes of the loop from pool `s` and loop variables `l` on, none before `from`. */
  ghost predicate Passes(s: PoolState, l: Locals, client: string, from: nat, passes: seq<Pass>)
    decreases |passes|
  {
    Inv(s)
    && (passes == []
        || (from <= passes[0].at && GoesOn(s, l, client, passes[0])
            && Passes(passes[0].next, passes[0].l, client, passes[0].done, passes[1..])))
  }

  // ---------------------------------------------------------------------------
  // What a pass does to the keys

  /** A key as a selector at `now` may leave it. */
  ghost predicate MaybeRecovered(e: KeyEntry, e': KeyEntry, now: Clock.Time) {
    e' == e || (Available(e, now) && e' == Recovered(e))
  }

  lemma SelectorEffect(s: PoolState, op: KeyRuns.PoolOp, now: nat, s': PoolState, r: int)
    requires KeyRuns.Step(s, op, now, s', r) && KeyRuns.IsSelector(op)
    ensures Inv(s') && |s'.keys| == |s.keys|
    ensures forall i :: 0 <= i < |s.keys| ==> MaybeRecovered(s.keys[i], s'.keys[i], now)
  {
    KeyRuns.StepKeepsInv(s, op, now, s', r);
    forall i | 0 <= i < |s.keys|
      ensures MaybeRecovered(s.keys[i], s'.keys[i], now)
    {
      KeyRuns.SelectorStep(s, op, now, s', r, i);
    }
  }

  ghost predicate SameBlocks(a: seq<KeyEntry>, b: seq<KeyEntry>) {
    |a| == |b| && forall i :: 0 <= i < |a| ==> a[i].blocked == b[i].blocked
  }

  /** The forward took an available key and left it active; nothing else changed but that
      key's exhaustion, if the reply reports one. */
  lemma ForwardEffect(s: PoolState, l: Locals, client: string, p: Pass)
    requires Inv(s) && client != "" && GoesOn(s, l, client, p)
    ensures |p.mid.keys| == |s.keys| && p.key < |s.keys|
    ensures Available(s.keys[p.key], p.at) && Active(p.mid.keys[p.key])
    ensures forall i :: 0 <= i < |s.keys| ==> MaybeRecovered(s.keys[i], p.mid.keys[i], p.at)
    ensures SameBlocks(s.keys, AfterReply(p.mid, p.key, p.reply, p.done).keys)
  {
    hide Inv, Handled, SelectForClientStep;
    KeySelection.SelectForClientSound(s, client, p.at, p.mid, p.key);
    SelectorEffect(s, KeyRuns.SelectForClient(client), p.at, p.mid, p.key);
  }

  /** Nobody blocks or unblocks a key meanwhile. */
  lemma PassKeepsBlocks(s: PoolState, l: Locals, client: string, p: Pass)
    requires Inv(s) && client != "" && GoesOn(s, l, client, p)
    ensures SameBlocks(s.keys, p.next.keys)
  {
    hide Inv, SelectForClientStep, AfterReply, NextActiveStep, SelectKeyStep;
    ForwardEffect(s, l, client, p);
    var t := AfterReply(p.mid, p.key, p.reply, p.done);
    if TooMany(p.reply) && l.retries >= 2 {
      var t2 := MarkStep(t, p.key, RateLimited, p.done);
      KeyRuns.StepKeepsInv(t, KeyRuns.MarkExhausted(p.key, RateLimited), p.done, t2, -1);
      SelectorEffect(t2, KeyRuns.SelectNextActive(p.key), p.done, p.next, NextActiveStep(t2, p.key, p.done).1);
    } else if !TooMany(p.reply) {
      SelectorEffect(t, KeyRuns.SelectKey, p.done, p.next, SelectKeyStep(t, p.done).1);
    }
  }

  // ---------------------------------------------------------------------------
  // A single key

  function CountUnblocked(keys: seq<KeyEntry>): nat {
    if keys == [] then 0 else (if keys[0].blocked then 0 else 1) + CountUnblocked(keys[1..])
  }

  lemma {:induction false} SameBlocksCount(a: seq<KeyEntry>, b: seq<KeyEntry>)
    requires SameBlocks(a, b)
    ensures CountUnblocked(a) == CountUnblocked(b)
  {
    if a != [] {
      SameBlocksCount(a[1..], b[1..]);
    }
  }

  lemma {:induction false} SomeUnblocked(keys: seq<KeyEntry>, i: nat)
    requires i < |keys| && !keys[i].blocked
    ensures CountUnblocked(keys) >= 1
  {
    if i > 0 {
      SomeUnblocked(keys[1..], i - 1);
    }
  }

  lemma {:induction false} TwoUnblocked(keys: seq<KeyEntry>, i: nat, j: nat)
    requires i < |keys| && j < |keys| && i != j && !keys[i].blocked && !keys[j].blocked
    ensures CountUnblocked(keys) >= 2
  {
    if i == 0 {
      SomeUnblocked(keys[1..], j - 1);
    } else if j == 0 {
      SomeUnblocked(keys[1..], i - 1);
    } else {
      TwoUnblocked(keys[1..], i - 1, j - 1);
    }
  }

  /** A reply whose exhaustion code, if any, still means a cooldown to come. */
  predicate CoolsDown(p: Pass) {
    p.reply.Reply? && KnownReply(p.reply) && (p.reply.code.Some? ==> p.done < PERMANENT_END)
  }

  /** With one unblocked key the loop goes round again only to repeat a 429. */
  lemma OneKeyPass(s: PoolState, l: Locals, client: string, p: Pass)
    requires Inv(s) && client != "" && GoesOn(s, l, client, p) && CoolsDown(p) && CountUnblocked(s.keys) <= 1
    ensures l.retries < 2 && p.l.retries == l.retries + 1
  {
    hide Inv, SelectForClientStep, NextActiveStep, SelectKeyStep;
    ForwardEffect(s, l, client, p);
    var t, key := AfterReply(p.mid, p.key, p.reply, p.done), p.key;
    if KeyFailure(p.reply) {
      RetryMeasure.MarkedIsUnavailable(p.mid.keys[key], p.reply.code.value, Period.ResolveReset(p.mid.reset, p.done),
                                       p.done);
    }
    if TooMany(p.reply) && l.retries >= 2 {
      var t2 := MarkStep(t, key, RateLimited, p.done);
      KeyRuns.StepKeepsInv(t, KeyRuns.MarkExhausted(key, RateLimited), p.done, t2, -1);
      KeySelection.NextActiveSound(t2, key, p.done);
      TwoUnblocked(s.keys, key, NextActiveStep(t2, key, p.done).1);
    } else if !TooMany(p.reply) {
      KeySelection.SelectKeySound(t, p.done);
      TwoUnblocked(s.keys, key, SelectKeyStep(t, p.done).1);
    }
  }

  /** A pool with at most one unblocked key: the loop ends within three sends, whatever the
      replies and however late they come. */
  lemma {:induction false} OneKeyEnds(s: PoolState, l: Locals, client: string, from: nat, passes: seq<Pass>)
    requires client != "" && l.retries <= 2 && Passes(s, l, client, from, passes) && CountUnblocked(s.keys) <= 1
    requires forall j :: 0 <= j < |passes| ==> CoolsDown(passes[j])
    ensures |passes| <= 2 - l.retries
    decreases |passes|
  {
    hide GoesOn, Inv, CoolsDown;
    if passes != [] {
      var p := passes[0];
      OneKeyPass(s, l, client, p);
      PassKeepsBlocks(s, l, client, p);
      SameBlocksCount(s.keys, p.next.keys);
      OneKeyEnds(p.next, p.l, client, p.done, passes[1..]);
    }
  }

  // ---------------------------------------------------------------------------
  // The loop itself

  /** Pool and loop variables after these passes. */
  function PoolAfter(s: PoolState, passes: seq<Pass>): PoolState {
    if passes == [] then s else passes[|passes| - 1].next
  }

  function LocalsAfter(l: Locals, passes: seq<Pass>): Locals {
    if passes == [] then l else passes[|passes| - 1].l
  }

  lemma GoesOnInv(s: PoolState, l: Locals, client: string, p: Pass)
    requires Inv(s) && GoesOn(s, l, client, p)
    ensures Inv(p.next) && p.at <= p.done
  {
    hide Inv, SelectForClientStep, Handled, AfterReply;
  }

  lemma {:induction false} PassesInOrder(s: PoolState, l: Locals, client: string, from: nat, passes: seq<Pass>)
    requires Passes(s, l, client, from, passes) && passes != []
    ensures from <= passes[0].at <= passes[0].done <= passes[|passes| - 1].done
    decreases |passes|
  {
    hide Inv, GoesOn;
    GoesOnInv(s, l, client, passes[0]);
    if |passes| > 1 {
      PassesInOrder(passes[0].next, passes[0].l, client, passes[0].done, passes[1..]);
    }
  }

  lemma {:induction false} PassesGrow(s: PoolState, l: Locals, client: string, from: nat, passes: seq<Pass>, p: Pass)
    requires Passes(s, l, client, from, passes) && Inv(PoolAfter(s, passes))
    requires GoesOn(PoolAfter(s, passes), LocalsAfter(l, passes), client, p)
    requires from <= p.at && (passes != [] ==> passes[|passes| - 1].done <= p.at)
    ensures Passes(s, l, client, from, passes + [p])
    decreases |passes|
  {
    hide Inv, GoesOn;
    if passes == [] {
      GoesOnInv(s, l, client, p);
      assert ([] + [p])[1..] == [];
    } else {
      PassesInOrder(s, l, client, from, passes);
      PassesGrow(passes[0].next, passes[0].l, client, passes[0].done, passes[1..], p);
      assert (passes + [p])[1..] == passes[1..] + [p];
    }
  }

  /** Nothing the next forward may do makes the loop go round again. */
  ghost predicate Stuck(s: PoolState, l: Locals, client: string, at: nat, done: nat, u: Upstream)
    requires Inv(s)
  {
    forall p: Pass :: p.at == at && p.done == done && p.reply == u ==> !GoesOn(s, l, client, p)
  }

  /** Eviction ties aside a selection is determined. */
  lemma SameSelection(s: PoolState, client: string, at: nat, mid: PoolState, key: int, mid': PoolState, key': int)
    requires Inv(s) && client != ""
    requires SelectForClientStep(s, client, at, mid, key) && SelectForClientStep(s, client, at, mid', key')
    ensures key' == key && mid'.keys == mid.keys && mid'.rr == mid.rr && mid'.reset == mid.reset
  {
    hide ChooseForClient, Inv, Affinity.EvictionOk;
  }

  lemma SameSwitch(t: PoolState, t': PoolState, key: nat, now: nat)
    requires Inv(t) && Inv(t') && t'.keys == t.keys && t'.rr == t.rr && t'.reset == t.reset
    ensures Switched(t', key, now).1 == Switched(t, key, now).1
    ensures SelectKeyStep(t', now).1 == SelectKeyStep(t, now).1
  {
  }

  lemma NoReplyIsStuck(s: PoolState, l: Locals, client: string, at: nat, done: nat, u: Upstream, mid: PoolState,
                       res: Forwarded, s': PoolState)
    requires Inv(s) && client != "" && ForwardStep(s, client, u, at, done, mid, res, s') && !res.Responded?
    ensures Stuck(s, l, client, at, done, u)
  {
    hide Inv, SelectForClientStep, Handled, AfterReply;
    if res.NoKey? {
      forall p: Pass | p.at == at && p.done == done && p.reply == u
        ensures !GoesOn(s, l, client, p)
      {
        if GoesOn(s, l, client, p) {
          SameSelection(s, client, at, mid, -1, p.mid, p.key);
        }
      }
    }
  }

  lemma DoneIsStuck(s: PoolState, l: Locals, client: string, at: nat, done: nat, u: Upstream, mid: PoolState,
                    key: nat, verdict: Verdict, s': PoolState)
    requires Inv(s) && client != "" && SelectForClientStep(s, client, at, mid, key)
    requires u.Reply? && verdict.Done? && Inv(mid) && key < |mid.keys|
    requires var t := AfterReply(mid, key, u, done);
             Inv(t) && key < |t.keys| && Handled(t, key, u, l, done, verdict, s')
    ensures Stuck(s, l, client, at, done, u)
  {
    hide Inv, SelectForClientStep, Switched, SelectKeyStep;
    forall p: Pass | p.at == at && p.done == done && p.reply == u
      ensures !GoesOn(s, l, client, p)
    {
      if GoesOn(s, l, client, p) {
        SameSelection(s, client, at, mid, key, p.mid, p.key);
        SameSwitch(AfterReply(mid, key, u, done), AfterReply(p.mid, key, u, done), key, done);
      }
    }
  }

  /** A reply leaves the pool fit to be handled. */
  lemma ReplyReady(s: PoolState, client: string, at: nat, done: nat, u: Upstream, mid: PoolState, key: nat)
    requires Inv(s) && client != "" && KeyRuns.OnlyHardFailures(s) && KnownReply(u) && u.Reply?
    requires SelectForClientStep(s, client, at, mid, key) && Inv(mid) && key < |mid.keys|
    ensures var t := AfterReply(mid, key, u, done);
            && Inv(t) && key < |t.keys| && KeyRuns.OnlyHardFailures(t)
            && (u.status < 400 ==> !t.keys[key].exhausted)
  {
    hide Inv, SelectForClientStep, KeyRuns.OnlyHardFailures, IsHardFailure, IsAccountLevel;
    KeySelection.SelectForClientSound(s, client, at, mid, key);
    KeyRuns.HardFailureStep(s, KeyRuns.SelectForClient(client), at, mid, key);
    if KeyFailure(u) {
      var t := AfterReply(mid, key, u, done);
      KeyRuns.StepKeepsInv(mid, KeyRuns.MarkExhausted(key, u.code.value), done, t, -1);
      KeyRuns.HardFailureStep(mid, KeyRuns.MarkExhausted(key, u.code.value), done, t, -1);
    }
  }

  lemma HandledHard(t: PoolState, key: nat, u: Upstream, l: Locals, now: nat, verdict: Verdict, s': PoolState)
    requires Inv(t) && key < |t.keys| && KeyRuns.OnlyHardFailures(t) && u.Reply?
    requires Handled(t, key, u, l, now, verdict, s') && verdict.GoOn?
    ensures KeyRuns.OnlyHardFailures(s')
  {
    hide Inv, KeyRuns.OnlyHardFailures, Switched, SelectKeyStep;
    SwitchedSound(t, key, now);
    KeyRuns.HardFailureStep(t, KeyRuns.SelectKey, now, SelectKeyStep(t, now).0, SelectKeyStep(t, now).1);
  }

  /** The passes follow the clock and the upstream. */
  ghost predicate Follows(passes: seq<Pass>, starts: nat -> nat, ends: nat -> nat, upstream: nat -> Upstream) {
    forall j :: 0 <= j < |passes| ==>
      passes[j].at == starts(j) && passes[j].done == ends(j) && passes[j].reply == upstream(j)
  }

  /** The passes so far, and where they have led. */
  ghost predicate Reached(s0: PoolState, client: string, starts: nat -> nat, ends: nat -> nat,
                          upstream: nat -> Upstream, passes: seq<Pass>, s: PoolState, l: Locals) {
    && Passes(s0, FIRST, client, starts(0), passes) && Follows(passes, starts, ends, upstream)
    && s == PoolAfter(s0, passes) && l == LocalsAfter(FIRST, passes)
    && Inv(s) && KeyRuns.OnlyHardFailures(s) && starts(0) <= starts(|passes|)
  }

  lemma ReachedAtFirst(s: PoolState, client: string, starts: nat -> nat, ends: nat -> nat, upstream: nat -> Upstream)
    requires Inv(s) && KeyRuns.OnlyHardFailures(s)
    ensures Reached(s, client, starts, ends, upstream, [], s, FIRST)
  {
  }

  lemma IsPass(s: PoolState, l: Locals, client: string, p: Pass, verdict: Verdict)
    requires Inv(s) && p.at <= p.done && p.reply.Reply? && Inv(p.next) && verdict.GoOn? && verdict.l == p.l
    requires SelectForClientStep(s, client, p.at, p.mid, p.key) && Inv(p.mid) && p.key < |p.mid.keys|
    requires var t := AfterReply(p.mid, p.key, p.reply, p.done);
             Inv(t) && p.key < |t.keys| && Handled(t, p.key, p.reply, l, p.done, verdict, p.next)
    ensures GoesOn(s, l, client, p)
  {
    hide Inv, SelectForClientStep, AfterReply, Switched, SelectKeyStep;
  }

  lemma ReachedNext(s0: PoolState, client: string, starts: nat -> nat, ends: nat -> nat, upstream: nat -> Upstream,
                    passes: seq<Pass>, s: PoolState, l: Locals, p: Pass, verdict: Verdict)
    requires Reached(s0, client, starts, ends, upstream, passes, s, l)
    requires forall j: nat :: starts(j) <= ends(j) <= starts(j + 1)
    requires p.at == starts(|passes|) && p.done == ends(|passes|) && p.reply == upstream(|passes|) && p.reply.Reply?
    requires Inv(p.next) && verdict.GoOn? && verdict.l == p.l
    requires SelectForClientStep(s, client, p.at, p.mid, p.key) && Inv(p.mid) && p.key < |p.mid.keys|
    requires var t := AfterReply(p.mid, p.key, p.reply, p.done);
             && Inv(t) && p.key < |t.keys| && KeyRuns.OnlyHardFailures(t)
             && Handled(t, p.key, p.reply, l, p.done, verdict, p.next)
    ensures Reached(s0, client, starts, ends, upstream, passes + [p], p.next, p.l)
  {
    hide Inv, Passes, GoesOn, Handled, SelectForClientStep, AfterReply, KeyRuns.OnlyHardFailures;
    IsPass(s, l, client, p, verdict);
    HandledHard(AfterReply(p.mid, p.key, p.reply, p.done), p.key, p.reply, l, p.done, verdict, p.next);
    PassesGrow(s0, FIRST, client, starts(0), passes, p);
  }

  /** The inner retry loop with a moving clock, watched for `limit` passes: it goes through
      them, or it ends at the first one that does not go on. */
  method RunTimedLoop(pool: KeyPools.KeyPool, client: string, upstream: nat -> Upstream, probes: nat -> (nat -> bool),
                      starts: nat -> nat, ends: nat -> nat, limit: nat)
    returns (ended: bool, ghost passes: seq<Pass>)
    requires pool.Valid() && pool.clock <= starts(0) && client != "" && KeyRuns.OnlyHardFailures(pool.Abs())
    requires forall j: nat :: KnownReply(upstream(j)) && starts(j) <= ends(j) <= starts(j + 1)
    modifies pool, pool.entries, pool.inFlight, pool.tokenSamples
    ensures pool.Valid()
    ensures Passes(old(pool.Abs()), FIRST, client, starts(0), passes) && Follows(passes, starts, ends, upstream)
    ensures !ended ==> |passes| == limit && pool.Abs() == PoolAfter(old(pool.Abs()), passes)
    ensures var k, s := |passes|, PoolAfter(old(pool.Abs()), passes);
            ended ==> k < limit && Inv(s)
                      && Stuck(s, LocalsAfter(FIRST, passes), client, starts(k), ends(k), upstream(k))
  {
    hide KeyPools.KeyPool.Valid, KeyPools.KeyPool.Abs, Inv, Passes, Handled, SelectForClientStep, AfterReply;
    hide Follows, PoolAfter, AcquireStep, KeyRuns.OnlyHardFailures, Stuck, KnownReply, LocalsAfter;
    ghost var s0 := pool.Abs();
    var l, probe, sent := FIRST, false, 0;
    passes := [];
    pool.ValidInv();
    ReachedAtFirst(s0, client, starts, ends, upstream);
    while sent < limit
      invariant pool.Valid() && pool.clock <= starts(sent) && |passes| == sent <= limit
      invariant Reached(s0, client, starts, ends, upstream, passes, pool.Abs(), l)
    {
      ghost var s := pool.Abs();
      var u, at, done := upstream(sent), starts(sent), ends(sent);
      var res, b, mid := ForwardRequest(pool, client, u, probes(sent), at, done);
      if !res.Responded? {
        NoReplyIsStuck(s, l, client, at, done, u, mid, res, pool.Abs());
        return true, passes;
      }
      ReplyReady(s, client, at, done, u, mid, res.key);
      ghost var t := AfterReply(mid, res.key, u, done);
      var verdict, open := HandleReply(pool, client, b, res.key, u, upstream(sent + 1), probes(sent + 1), l, probe,
                                       done, t);
      if verdict.Done? {
        DoneIsStuck(s, l, client, at, done, u, mid, res.key, verdict, pool.Abs());
        return true, passes;
      }
      pool.ValidInv();
      ghost var p := Pass(at, done, u, mid, res.key, pool.Abs(), verdict.l);
      ReachedNext(s0, client, starts, ends, upstream, passes, s, l, p, verdict);
      l, probe, sent, passes := verdict.l, verdict.probe, sent + 1, passes + [p];
    }
    return false, passes;
  }
}

/** The retry loop of one request as a whole: when it goes on, with which key, when it stops
    and why, read off the attempts alone. */
module RetryRequest {
  import opened Clock
  import opened Wrappers
  import Modular
  import Period
  import opened KeyState
  import opened KeyPools
  import opened KeySelection
  import opened KeyRuns
  import opened RetryMeasure
  import opened RetryLoop

  // ---------------------------------------------------------------------------
  // Reading the attempts

  /** The failure an attempt has shown its key to have; a 429 shows none, whatever its code:
      it is sent again or the key switched. */
  function FailureOf(a: Attempt, reset: Time, now: Time): Reason {
    if KeyFailure(a.reply) && !TooMany(a.reply) then MarkedReason(a.reply.code.value, reset, now) else NoReason
  }

  predicate AccountFailure(a: Attempt, reset: Time, now: Time) { IsAccountLevel(FailureOf(a, reset, now)) }

  /** Which failures those are: any error status but 429 with a code of the classifier, except a
      quota that comes back at a reset still ahead. */
  lemma AccountFailureMeans(a: Attempt, reset: Time, now: Time)
    requires KnownReply(a.reply)
    ensures AccountFailure(a, reset, now)
       <==> a.reply.Reply? && a.reply.status >= 400 && a.reply.status != 429 && a.reply.code.Some?
            && !(a.reply.code.value == QuotaExceeded && reset != ZERO_TIME && reset > now)
  {
  }

  /** They are the same exactly when the codes are. */
  lemma SameFailureMeans(a: Attempt, b: Attempt, reset: Time, now: Time)
    requires KnownReply(a.reply) && KnownReply(b.reply) && AccountFailure(a, reset, now)
    ensures FailureOf(b, reset, now) == FailureOf(a, reset, now)
       <==> AccountFailure(b, reset, now) && b.reply.code == a.reply.code
  {
  }

  /** Two attempts with the same account-level failure, and none in between. */
  ghost predicate SameFailureTwice(trail: seq<Attempt>, i: nat, j: nat, reset: Time, now: Time) {
    && i < j < |trail| && AccountFailure(trail[i], reset, now)
    && FailureOf(trail[j], reset, now) == FailureOf(trail[i], reset, now)
    && forall k: nat :: i < k < j ==> !AccountFailure(trail[k], reset, now)
  }

  function Count429s(trail: seq<Attempt>): nat {
    if trail == [] then 0
    else Count429s(trail[..|trail| - 1]) + if TooMany(trail[|trail| - 1].reply) then 1 else 0
  }

  /** Every third 429 of a request ends the retries of its key. */
  ghost predicate Third429(trail: seq<Attempt>, j: nat)
    requires j < |trail|
  {
    TooMany(trail[j].reply) && Count429s(trail[..j + 1]) % 3 == 0
  }

  /** The attempt used up its key. */
  ghost predicate Spends(trail: seq<Attempt>, j: nat)
    requires j < |trail|
  {
    KeyFailure(trail[j].reply) || Third429(trail, j)
  }

  /** The key is exhausted and cools down, for the reason the attempt shows: that of the
      code, or too many requests. */
  ghost predicate Spent(e: KeyEntry, a: Attempt, reset: Time, now: Time) {
    && e.exhausted && !Available(e, now)
    && e.reason == if KeyFailure(a.reply) then MarkedReason(a.reply.code.value, reset, now) else RateLimited
  }

  /** Keys used up stay so, and are not used again. */
  ghost predicate KeysSpent(keys: seq<KeyEntry>, trail: seq<Attempt>, reset: Time, now: Time) {
    forall j: nat :: j < |trail| && Spends(trail, j) ==>
      trail[j].key < |keys| && Spent(keys[trail[j].key], trail[j], reset, now)
  }

  ghost predicate SpentOnce(trail: seq<Attempt>) {
    forall i: nat, j: nat :: i < j < |trail| && Spends(trail, i) ==> trail[j].key != trail[i].key
  }

  /** No key is marked that was not used up. */
  ghost predicate OnlySpent(keys0: seq<KeyEntry>, keys: seq<KeyEntry>, trail: seq<Attempt>) {
    && |keys| == |keys0|
    && forall k: nat :: k < |keys| && keys[k].exhausted && !keys0[k].exhausted ==>
         exists j: nat :: j < |trail| && trail[j].key == k && Spends(trail, j)
  }

  /** As long as its key is not used up the request goes on with the same key. */
  ghost predicate Continues(trail: seq<Attempt>) {
    forall j: nat :: j + 1 < |trail| && !Spends(trail, j) ==> trail[j + 1].key == trail[j].key
  }

  ghost predicate FairCourse(keys0: seq<KeyEntry>, keys: seq<KeyEntry>, trail: seq<Attempt>, reset: Time, now: Time) {
    KeysSpent(keys, trail, reset, now) && SpentOnce(trail) && OnlySpent(keys0, keys, trail) && Continues(trail)
  }

  /** The counter points at the key that was just used: `selectKey` offers no other. */
  ghost predicate CounterAt(s: PoolState, key: nat) {
    && |s.keys| > 0
    && exists rr: nat :: rr < UINT32 && s.rr == NextCounter(rr) && CyclicActive(s.keys, rr % |s.keys|, 0) == key
  }

  /** How the attempts decide the outcome: nothing follows the second account-level failure of
      a kind in a row, and exactly that makes a request converge; a 429 is never passed on;
      and an error that leaves its key in working order ends the request only when
      `selectKey` has come round to that key. */
  ghost predicate Decided(s: PoolState, trail: seq<Attempt>, outcome: Outcome, reset: Time, now: Time) {
    && (forall i: nat, j: nat :: SameFailureTwice(trail, i, j, reset, now) ==> j == |trail| - 1)
    && ((outcome.Response? && outcome.why == Converged)
        <==> exists i: nat, j: nat :: j == |trail| - 1 && SameFailureTwice(trail, i, j, reset, now))
    && (outcome.Response? ==> trail != [] && !TooMany(trail[|trail| - 1].reply))
    && (outcome.Response? && outcome.why == NoOtherKey && !KeyFailure(trail[|trail| - 1].reply) ==>
          CounterAt(s, outcome.key))
  }

  // ---------------------------------------------------------------------------
  // Growing the trail

  lemma SpendsPrefix(trail: seq<Attempt>, a: Attempt, j: nat)
    requires j < |trail|
    ensures Spends(trail + [a], j) <==> Spends(trail, j)
  {
    assert (trail + [a])[..j + 1] == trail[..j + 1];
  }

  lemma SpendsLast(trail: seq<Attempt>, a: Attempt)
    ensures Count429s(trail + [a]) == Count429s(trail) + if TooMany(a.reply) then 1 else 0
    ensures Count429s(trail + [a]) % 3
         == if !TooMany(a.reply) then Count429s(trail) % 3
            else if Count429s(trail) % 3 == 2 then 0 else Count429s(trail) % 3 + 1
    ensures Spends(trail + [a], |trail|) <==> KeyFailure(a.reply) || (TooMany(a.reply) && Count429s(trail) % 3 == 2)
  {
    CountLast(trail, a);
    ThirdOfThree(Count429s(trail));
    hide Count429s;
    assert (trail + [a])[..|trail| + 1] == trail + [a];
  }

  lemma CountLast(trail: seq<Attempt>, a: Attempt)
    ensures Count429s(trail + [a]) == Count429s(trail) + if TooMany(a.reply) then 1 else 0
  {
    hide TooMany;
    assert (trail + [a])[..|trail|] == trail;
  }

  lemma ThirdOfThree(n: nat)
    ensures (n + 1) % 3 == if n % 3 == 2 then 0 else n % 3 + 1
  {
    Modular.ModSuccessor(n, 3);
  }

  lemma CourseGrows(keys0: seq<KeyEntry>, keys: seq<KeyEntry>, trail: seq<Attempt>, a: Attempt, keys': seq<KeyEntry>,
                    reset: Time, now: Time)
    requires FairCourse(keys0, keys, trail, reset, now) && NoneGained(keys, keys', now)
    requires a.key < |keys| && Available(keys[a.key], now)
    requires Spends(trail + [a], |trail|) ==> Spent(keys'[a.key], a, reset, now)
    requires trail != [] && !Spends(trail, |trail| - 1) ==> a.key == trail[|trail| - 1].key
    requires forall k: nat :: k < |keys| && k != a.key && keys'[k].exhausted ==> keys[k].exhausted
    requires keys'[a.key].exhausted ==> Spends(trail + [a], |trail|)
    ensures FairCourse(keys0, keys', trail + [a], reset, now)
  {
    var all := trail + [a];
    hide Spends;
    forall j: nat | j < |trail|
      ensures Spends(all, j) <==> Spends(trail, j)
      ensures all[j] == trail[j]
    {
      SpendsPrefix(trail, a, j);
    }
    assert all[|trail|] == a;
    assert KeysSpent(keys', all, reset, now);
    assert SpentOnce(all);
    forall k: nat | k < |keys'| && keys'[k].exhausted && !keys0[k].exhausted
      ensures exists j: nat :: j < |all| && all[j].key == k && Spends(all, j)
    {
      if k != a.key {
        var j: nat :| j < |trail| && trail[j].key == k && Spends(trail, j);
        assert all[j].key == k && Spends(all, j);
      } else {
        assert all[|trail|].key == k && Spends(all, |trail|);
      }
    }
  }

  /** A selection, or anything else that marks nothing, keeps the course. */
  lemma CourseKept(keys0: seq<KeyEntry>, keys: seq<KeyEntry>, trail: seq<Attempt>, keys': seq<KeyEntry>, reset: Time,
                   now: Time)
    requires FairCourse(keys0, keys, trail, reset, now) && NoneGained(keys, keys', now)
    requires forall k: nat :: k < |keys| && keys'[k].exhausted ==> keys[k].exhausted
    ensures FairCourse(keys0, keys', trail, reset, now)
  {
    hide Spends;
  }

  /** The latest account-level failure. */
  function LastFailure(trail: seq<Attempt>, reset: Time, now: Time): Reason {
    if trail == [] then NoReason
    else if AccountFailure(trail[|trail| - 1], reset, now) then FailureOf(trail[|trail| - 1], reset, now)
    else LastFailure(trail[..|trail| - 1], reset, now)
  }

  lemma {:induction false} LastFailureAt(trail: seq<Attempt>, reset: Time, now: Time) returns (i: nat)
    requires LastFailure(trail, reset, now) != NoReason
    ensures i < |trail| && AccountFailure(trail[i], reset, now)
    ensures FailureOf(trail[i], reset, now) == LastFailure(trail, reset, now)
    ensures forall k: nat :: i < k < |trail| ==> !AccountFailure(trail[k], reset, now)
    decreases |trail|
  {
    i := |trail| - 1;
    if !AccountFailure(trail[i], reset, now) {
      i := LastFailureAt(trail[..|trail| - 1], reset, now);
    }
  }

  lemma {:induction false} LastFailureIs(trail: seq<Attempt>, i: nat, reset: Time, now: Time)
    requires i < |trail| && AccountFailure(trail[i], reset, now)
    requires forall k: nat :: i < k < |trail| ==> !AccountFailure(trail[k], reset, now)
    ensures LastFailure(trail, reset, now) == FailureOf(trail[i], reset, now)
    decreases |trail|
  {
    if i < |trail| - 1 {
      LastFailureIs(trail[..|trail| - 1], i, reset, now);
    }
  }

  /** One more attempt makes a pair exactly when it shows the latest account-level failure
      again. */
  lemma PairsGrow(trail: seq<Attempt>, a: Attempt, reset: Time, now: Time)
    ensures (exists i: nat :: SameFailureTwice(trail + [a], i, |trail|, reset, now))
       <==> AccountFailure(a, reset, now) && FailureOf(a, reset, now) == LastFailure(trail, reset, now)
    ensures forall i: nat, j: nat :: j < |trail| ==>
      (SameFailureTwice(trail + [a], i, j, reset, now) <==> SameFailureTwice(trail, i, j, reset, now))
  {
    hide AccountFailure, FailureOf;
    var all := trail + [a];
    assert all[|trail|] == a && forall k: nat :: k < |trail| ==> all[k] == trail[k];
    if i: nat :| SameFailureTwice(all, i, |trail|, reset, now) {
      LastFailureIs(trail, i, reset, now);
      SameLevel(trail[i], a, reset, now);
    }
    if AccountFailure(a, reset, now) && FailureOf(a, reset, now) == LastFailure(trail, reset, now) {
      AccountIsSome(a, reset, now);
      var i := LastFailureAt(trail, reset, now);
      assert SameFailureTwice(all, i, |trail|, reset, now);
    }
  }

  lemma SameLevel(a: Attempt, b: Attempt, reset: Time, now: Time)
    requires AccountFailure(a, reset, now) && FailureOf(b, reset, now) == FailureOf(a, reset, now)
    ensures AccountFailure(b, reset, now)
  {
  }

  lemma AccountIsSome(a: Attempt, reset: Time, now: Time)
    requires AccountFailure(a, reset, now)
    ensures FailureOf(a, reset, now) != NoReason
  {
  }

  // ---------------------------------------------------------------------------
  // What the loop variables stand for

  ghost predicate NoPairs(trail: seq<Attempt>, reset: Time, now: Time) {
    forall i: nat, j: nat :: !SameFailureTwice(trail, i, j, reset, now)
  }

  /** Before a pass: the retries are the 429s since the last third one, the code is the latest
      account-level failure, which came once in a row, and a key that is not used up is the
      client's. */
  ghost predicate Course(s0: PoolState, s: PoolState, client: string, now: nat, trail: seq<Attempt>, l: Locals) {
    var reset := Period.ResolveReset(s0.reset, now);
    && s.reset == s0.reset && l.retries == Count429s(trail) % 3
    && l.code == LastFailure(trail, reset, now) && l.streak == (if l.code == NoReason then 0 else 1)
    && FairCourse(s0.keys, s.keys, trail, reset, now) && NoPairs(trail, reset, now)
    && (trail != [] && !Spends(trail, |trail| - 1) ==>
          Settled(s, client, now) && s.bound[client] == trail[|trail| - 1].key)
  }

  lemma CourseStarts(s: PoolState, client: string, now: nat)
    ensures Course(s, s, client, now, [], Locals(0, NoReason, 0))
  {
  }

  /** With the reply `u` in hand: `t` is the pool, the key's slot aside. */
  ghost predicate AtReply(s0: PoolState, s: PoolState, client: string, now: nat, trail: seq<Attempt>, l: Locals,
                          key: nat, u: Upstream, t: PoolState) {
    && Inv(s) && Inv(t) && key < |s.keys| && u.Reply? && client != "" && now < PERMANENT_END
    && Course(s0, s, client, now, trail, l) && t.reset == s0.reset
    && NoneGained(s.keys, t.keys, now) && |t.keys| == |s.keys| && Available(s.keys[key], now)
    && (KeyFailure(u) ==> Spent(t.keys[key], Attempt(key, u), Period.ResolveReset(s0.reset, now), now))
    && (!KeyFailure(u) ==> Active(t.keys[key]) && Settled(t, client, now) && t.bound[client] == key)
    && (forall k: nat :: k < |s.keys| && k != key && t.keys[k].exhausted ==> s.keys[k].exhausted)
    && (trail != [] && !Spends(trail, |trail| - 1) ==> key == trail[|trail| - 1].key)
  }

  lemma SelectionKeepsReset(s: PoolState, client: string, now: nat, mid: PoolState, idx: int)
    requires Inv(s) && client != "" && SelectForClientStep(s, client, now, mid, idx)
    ensures mid.reset == s.reset
  {
    hide ChooseForClient, Inv, Affinity.EvictionOk;
  }

  lemma MarkedIsSpent(mid: PoolState, key: nat, u: Upstream, now: nat)
    requires Inv(mid) && key < |mid.keys| && Active(mid.keys[key]) && KeyFailure(u) && KnownReply(u)
    requires now < PERMANENT_END
    ensures Spent(AfterReply(mid, key, u, now).keys[key], Attempt(key, u), Period.ResolveReset(mid.reset, now), now)
  {
    MarkedIsUnavailable(mid.keys[key], u.code.value, Period.ResolveReset(mid.reset, now), now);
  }

  lemma ReplyTaken(s0: PoolState, s: PoolState, client: string, now: nat, trail: seq<Attempt>, l: Locals,
                   mid: PoolState, key: nat, u: Upstream)
    requires Inv(s) && client != "" && now < PERMANENT_END && KnownReply(u) && u.Reply?
    requires Course(s0, s, client, now, trail, l)
    requires SelectForClientStep(s, client, now, mid, key) && Inv(mid) && key < |s.keys|
    ensures AtReply(s0, s, client, now, trail, l, key, u, AfterReply(mid, key, u, now))
  {
    hide SelectForClientStep, Inv, FairCourse, NoPairs, Spends, Available, Distance, Spent, Active;
    ReplyStep(s, client, now, mid, key, u);
    SelectionSettles(s, client, now, mid, key);
    SelectionKeepsReset(s, client, now, mid, key);
    SettledActive(mid, client, now);
    SameKeys(s.keys, AfterReply(mid, key, u, now).keys, now);
    if KeyFailure(u) {
      MarkedIsSpent(mid, key, u, now);
    }
  }

  lemma SameKeys(keys: seq<KeyEntry>, keys': seq<KeyEntry>, now: Time)
    requires NoneGained(keys, keys', now)
    ensures |keys'| == |keys|
  {
  }

  lemma SettledActive(s: PoolState, client: string, now: Time)
    requires Settled(s, client, now)
    ensures Active(s.keys[s.bound[client]])
  {
  }

  // ---------------------------------------------------------------------------
  // One pass

  lemma CourseRetry(s0: PoolState, s: PoolState, client: string, now: nat, trail: seq<Attempt>, l: Locals, key: nat,
                    u: Upstream, t: PoolState)
    requires AtReply(s0, s, client, now, trail, l, key, u, t) && TooMany(u) && l.retries < 2
    ensures Course(s0, t, client, now, trail + [Attempt(key, u)], l.(retries := l.retries + 1))
  {
    hide Inv, FairCourse, NoneGained, Available, Spends, Spent, Settled;
    var reset, a := Period.ResolveReset(s0.reset, now), Attempt(key, u);
    SpendsLast(trail, a);
    AppendLast(trail, a, reset, now);
    PairsGrow(trail, a, reset, now);
    ActiveOrSpent(t, key, a, reset, now);
    CourseGrows(s0.keys, s.keys, trail, a, t.keys, reset, now);
  }

  lemma ActiveOrSpent(t: PoolState, key: nat, a: Attempt, reset: Time, now: Time)
    requires key < |t.keys|
    ensures Active(t.keys[key]) ==> !t.keys[key].exhausted
  {
  }

  lemma AppendLast(trail: seq<Attempt>, a: Attempt, reset: Time, now: Time)
    ensures LastFailure(trail + [a], reset, now)
         == if AccountFailure(a, reset, now) then FailureOf(a, reset, now) else LastFailure(trail, reset, now)
  {
    assert (trail + [a])[..|trail|] == trail;
  }

  lemma SwitchSpends(t: PoolState, key: nat, u: Upstream, reset: Time, now: nat)
    requires Inv(t) && key < |t.keys| && TooMany(u)
    requires if KeyFailure(u) then Spent(t.keys[key], Attempt(key, u), reset, now) else Active(t.keys[key])
    ensures var t3 := Switched(t, key, now).0;
            && t3.reset == t.reset && |t3.keys| == |t.keys| && Spent(t3.keys[key], Attempt(key, u), reset, now)
            && (forall k: nat :: k < |t.keys| && k != key && t3.keys[k].exhausted ==> t.keys[k].exhausted)
  {
    var t2 := MarkStep(t, key, RateLimited, now);
    StepKeepsInv(t, MarkExhausted(key, RateLimited), now, t2, -1);
    FirstCooledComplete(t2.keys, now, 0);
  }

  lemma CourseSwitch(s0: PoolState, s: PoolState, client: string, now: nat, trail: seq<Attempt>, l: Locals, key: nat,
                     u: Upstream, t: PoolState)
    requires AtReply(s0, s, client, now, trail, l, key, u, t) && TooMany(u) && l.retries == 2
    requires NoneGained(s.keys, Switched(t, key, now).0.keys, now)
    ensures Course(s0, Switched(t, key, now).0, client, now, trail + [Attempt(key, u)], l.(retries := 0))
  {
    hide Inv, FairCourse, NoneGained, Available, Spends, Spent, Settled, Switched;
    var reset, a := Period.ResolveReset(s0.reset, now), Attempt(key, u);
    SpendsLast(trail, a);
    AppendLast(trail, a, reset, now);
    PairsGrow(trail, a, reset, now);
    SwitchSpends(t, key, u, reset, now);
    CourseGrows(s0.keys, s.keys, trail, a, Switched(t, key, now).0.keys, reset, now);
  }

  lemma SelectKeyMarksNone(t: PoolState, now: nat)
    requires Inv(t)
    ensures var (t', r) := SelectKeyStep(t, now);
            && t'.reset == t.reset && |t'.keys| == |t.keys|
            && (forall k: nat :: k < |t.keys| && t'.keys[k].exhausted ==> t.keys[k].exhausted)
            && (forall k: nat :: k < |t.keys| && !Available(t.keys[k], now) ==> t'.keys[k] == t.keys[k])
  {
    FirstCooledComplete(t.keys, now, 0);
  }

  /** A reply that is neither a 429 nor counted with the key's failures yet: the course up to
      it, in a pool `t'` that a selection may have left. */
  lemma CourseTaken(s0: PoolState, s: PoolState, client: string, now: nat, trail: seq<Attempt>, l: Locals, key: nat,
                    u: Upstream, t: PoolState, keys': seq<KeyEntry>)
    requires AtReply(s0, s, client, now, trail, l, key, u, t) && !TooMany(u)
    requires NoneGained(s.keys, keys', now) && |keys'| == |t.keys|
    requires forall k: nat :: k < |t.keys| && keys'[k].exhausted ==> t.keys[k].exhausted
    requires !Available(t.keys[key], now) ==> keys'[key] == t.keys[key]
    ensures FairCourse(s0.keys, keys', trail + [Attempt(key, u)], Period.ResolveReset(s0.reset, now), now)
  {
    var reset, a := Period.ResolveReset(s0.reset, now), Attempt(key, u);
    hide Inv, FairCourse, NoneGained, Available, Spends, Settled;
    SpendsLast(trail, a);
    ActiveOrSpent(t, key, a, reset, now);
    CourseGrows(s0.keys, s.keys, trail, a, keys', reset, now);
  }

  lemma ReasonIsFailure(key: nat, u: Upstream, t: PoolState, reset: Time, now: Time)
    requires key < |t.keys| && !TooMany(u)
    requires if KeyFailure(u) then Spent(t.keys[key], Attempt(key, u), reset, now) else Active(t.keys[key])
    ensures ReasonAt(t.keys[key]) == FailureOf(Attempt(key, u), reset, now)
  {
  }

  /** Going on after an error. */
  lemma CourseError(s0: PoolState, s: PoolState, client: string, now: nat, trail: seq<Attempt>, l: Locals, key: nat,
                    u: Upstream, t: PoolState)
    requires AtReply(s0, s, client, now, trail, l, key, u, t) && !TooMany(u)
    requires NoneGained(s.keys, SelectKeyStep(t, now).0.keys, now)
    ensures var reset := Period.ResolveReset(s0.reset, now);
            var trail', l' := trail + [Attempt(key, u)], NextLocals(l, ReasonAt(t.keys[key]));
            var t' := SelectKeyStep(t, now).0;
            && FairCourse(s0.keys, t'.keys, trail', reset, now)
            && FairCourse(s0.keys, t.keys, trail', reset, now)
            && (l'.streak >= 2 <==> exists i: nat :: SameFailureTwice(trail', i, |trail|, reset, now))
            && (l'.streak <= 1 ==> Course(s0, t', client, now, trail', l'))
  {
    hide Inv, FairCourse, NoneGained, Available, Spends, Settled, SelectKeyStep, Spent;
    var reset, a := Period.ResolveReset(s0.reset, now), Attempt(key, u);
    SelectKeyMarksNone(t, now);
    ReasonIsFailure(key, u, t, reset, now);
    CourseTaken(s0, s, client, now, trail, l, key, u, t, SelectKeyStep(t, now).0.keys);
    CourseTaken(s0, s, client, now, trail, l, key, u, t, t.keys);
    SpendsLast(trail, a);
    AppendLast(trail, a, reset, now);
    PairsGrow(trail, a, reset, now);
    if !KeyFailure(u) {
      SelectKeyCloses(t, client, now);
    }
  }

  /** The course of a request at its end. */
  ghost predicate CourseOver(s0: PoolState, s: PoolState, now: nat, trail: seq<Attempt>, outcome: Outcome) {
    var reset := Period.ResolveReset(s0.reset, now);
    FairCourse(s0.keys, s.keys, trail, reset, now) && Decided(s, trail, outcome, reset, now)
  }

  /** Once the retries of a 429 are used up. */
  lemma CourseThird(s0: PoolState, s: PoolState, client: string, now: nat, trail: seq<Attempt>, l: Locals, key: nat,
                    u: Upstream, t: PoolState)
    requires AtReply(s0, s, client, now, trail, l, key, u, t) && TooMany(u) && l.retries == 2
    ensures Course(s0, Switched(t, key, now).0, client, now, trail + [Attempt(key, u)], l.(retries := 0))
  {
    hide Inv, FairCourse, NoneGained, Available, Spends, Settled, Course, MarkStep, NextActiveStep;
    var t2 := MarkStep(t, key, RateLimited, now);
    MarkedIsUsedUp(s, t, key, now);
    NextActiveGainsNothing(t2, key, now);
    NoneGainedTrans(s.keys, t2.keys, NextActiveStep(t2, key, now).0.keys, now);
    CourseSwitch(s0, s, client, now, trail, l, key, u, t);
  }

  /** Without a pair the outcome is not convergence. */
  lemma DecidedQuiet(s: PoolState, trail: seq<Attempt>, outcome: Outcome, reset: Time, now: Time)
    requires NoPairs(trail, reset, now) && !(outcome.Response? && outcome.why == Converged)
    requires outcome.Response? ==> trail != [] && !TooMany(trail[|trail| - 1].reply)
    requires outcome.Response? && outcome.why == NoOtherKey && !KeyFailure(trail[|trail| - 1].reply) ==>
      CounterAt(s, outcome.key)
    ensures Decided(s, trail, outcome, reset, now)
  {
    hide CounterAt, SameFailureTwice;
  }

  lemma QuietGrows(trail: seq<Attempt>, a: Attempt, reset: Time, now: Time)
    requires NoPairs(trail, reset, now) && !AccountFailure(a, reset, now)
    ensures NoPairs(trail + [a], reset, now)
  {
    hide SameFailureTwice, AccountFailure;
    PairsGrow(trail, a, reset, now);
    forall i: nat, j: nat
      ensures !SameFailureTwice(trail + [a], i, j, reset, now)
    {
      if j >= |trail| {
        OutOfTrail(trail, a, i, j, reset, now);
      }
    }
  }

  lemma OutOfTrail(trail: seq<Attempt>, a: Attempt, i: nat, j: nat, reset: Time, now: Time)
    requires j >= |trail|
    ensures SameFailureTwice(trail + [a], i, j, reset, now) ==> j == |trail|
  {
  }

  lemma NoFailure(a: Attempt, reset: Time, now: Time)
    requires !KeyFailure(a.reply) || TooMany(a.reply)
    ensures !AccountFailure(a, reset, now)
  {
  }

  /** A success ends the request. */
  lemma CourseSuccess(s0: PoolState, s: PoolState, client: string, now: nat, trail: seq<Attempt>, l: Locals, key: nat,
                      u: Upstream, t: PoolState)
    requires AtReply(s0, s, client, now, trail, l, key, u, t) && u.status < 400
    ensures CourseOver(s0, AcquireStep(t, key), now, trail + [Attempt(key, u)], Response(u.status, key, Success))
  {
    hide Inv, FairCourse, NoneGained, Available, Spends, Settled, Decided, NoPairs;
    var reset, a := Period.ResolveReset(s0.reset, now), Attempt(key, u);
    CourseTaken(s0, s, client, now, trail, l, key, u, t, t.keys);
    NoFailure(a, reset, now);
    QuietGrows(trail, a, reset, now);
    DecidedQuiet(AcquireStep(t, key), trail + [a], Response(u.status, key, Success), reset, now);
  }

  /** The second account-level failure of a kind in a row ends the request. */
  lemma CourseConverged(s0: PoolState, s: PoolState, client: string, now: nat, trail: seq<Attempt>, l: Locals, key: nat,
                        u: Upstream, t: PoolState)
    requires AtReply(s0, s, client, now, trail, l, key, u, t) && !TooMany(u)
    requires NextLocals(l, ReasonAt(t.keys[key])).streak >= 2
    ensures CourseOver(s0, AcquireStep(t, key), now, trail + [Attempt(key, u)], Response(u.status, key, Converged))
  {
    hide Inv, FairCourse, NoneGained, Available, Spends, Settled, SameFailureTwice, NextLocals;
    var reset, a := Period.ResolveReset(s0.reset, now), Attempt(key, u);
    SelectKeyGains(s, t, now);
    CourseError(s0, s, client, now, trail, l, key, u, t);
    PairsGrow(trail, a, reset, now);
    forall i: nat, j: nat | SameFailureTwice(trail + [a], i, j, reset, now)
      ensures j == |trail|
    {
      if j >= |trail| {
        OutOfTrail(trail, a, i, j, reset, now);
      }
    }
  }

  lemma SelectKeyGains(s: PoolState, t: PoolState, now: nat)
    requires Inv(t) && NoneGained(s.keys, t.keys, now)
    ensures NoneGained(s.keys, SelectKeyStep(t, now).0.keys, now)
  {
    hide Inv, NoneGained, SelectKeyStep;
    SelectKeyGainsNothing(t, now);
    NoneGainedTrans(s.keys, t.keys, SelectKeyStep(t, now).0.keys, now);
  }

  /** No other key to offer: a key in working order is the one the counter points at. */
  lemma CourseNoOther(s0: PoolState, s: PoolState, client: string, now: nat, trail: seq<Attempt>, l: Locals, key: nat,
                      u: Upstream, t: PoolState)
    requires AtReply(s0, s, client, now, trail, l, key, u, t) && !TooMany(u)
    requires NextLocals(l, ReasonAt(t.keys[key])).streak <= 1
    requires SelectKeyStep(t, now).1 < 0 || SelectKeyStep(t, now).1 == key
    ensures CourseOver(s0, AcquireStep(SelectKeyStep(t, now).0, key), now, trail + [Attempt(key, u)],
                       Response(u.status, key, NoOtherKey))
  {
    hide Inv, FairCourse, NoneGained, Available, Spends, Settled, NextLocals, Decided, NoPairs, SelectKeyStep;
    hide CounterAt;
    var reset, a, t' := Period.ResolveReset(s0.reset, now), Attempt(key, u), SelectKeyStep(t, now).0;
    SelectKeyGains(s, t, now);
    CourseError(s0, s, client, now, trail, l, key, u, t);
    if !KeyFailure(u) {
      CameRound(t, client, now, key);
    }
    DecidedQuiet(AcquireStep(t', key), trail + [a], Response(u.status, key, NoOtherKey), reset, now);
  }

  lemma CameRound(t: PoolState, client: string, now: nat, key: nat)
    requires Inv(t) && Settled(t, client, now) && t.bound[client] == key && key < |t.keys|
    requires SelectKeyStep(t, now).1 < 0 || SelectKeyStep(t, now).1 == key
    ensures CounterAt(AcquireStep(SelectKeyStep(t, now).0, key), key)
  {
    SelectKeyCloses(t, client, now);
    assert CyclicActive(t.keys, t.rr % |t.keys|, 0) == key;
  }

  /** After each pass: the course goes on, or it is over. */
  lemma CoursePass(s0: PoolState, s: PoolState, client: string, now: nat, trail: seq<Attempt>, l: Locals, key: nat,
                   u: Upstream, t: PoolState, verdict: Verdict, s': PoolState)
    requires AtReply(s0, s, client, now, trail, l, key, u, t) && Handled(t, key, u, l, now, verdict, s')
    ensures verdict.GoOn? ==> Course(s0, s', client, now, trail + [Attempt(key, u)], verdict.l)
    ensures verdict.Done? ==> CourseOver(s0, s', now, trail + [Attempt(key, u)], verdict.outcome)
  {
    hide Inv, FairCourse, NoneGained, Available, Spends, Settled, NextLocals, Decided, NoPairs, SelectKeyStep, Switched;
    hide Course, CounterAt, Spent;
    RetriesBelowThree(s0, s, client, now, trail, l);
    if u.status < 400 {
      CourseSuccess(s0, s, client, now, trail, l, key, u, t);
    } else if TooMany(u) && l.retries < 2 {
      CourseRetry(s0, s, client, now, trail, l, key, u, t);
    } else if TooMany(u) {
      CourseThird(s0, s, client, now, trail, l, key, u, t);
      if verdict.Done? {
        CourseExhausted(s0, Switched(t, key, now).0, client, now, trail + [Attempt(key, u)], l.(retries := 0), s');
      }
    } else if NextLocals(l, ReasonAt(t.keys[key])).streak >= 2 {
      CourseConverged(s0, s, client, now, trail, l, key, u, t);
    } else if verdict.Done? {
      CourseNoOther(s0, s, client, now, trail, l, key, u, t);
    } else {
      SelectKeyGains(s, t, now);
      CourseError(s0, s, client, now, trail, l, key, u, t);
    }
  }

  lemma RetriesBelowThree(s0: PoolState, s: PoolState, client: string, now: nat, trail: seq<Attempt>, l: Locals)
    requires Course(s0, s, client, now, trail, l)
    ensures l.retries <= 2
  {
  }

  /** Without a key the request ends as it stands. */
  lemma CourseExhausted(s0: PoolState, s: PoolState, client: string, now: nat, trail: seq<Attempt>, l: Locals,
                        s': PoolState)
    requires Course(s0, s, client, now, trail, l) && s'.keys == s.keys
    ensures CourseOver(s0, s', now, trail, AllKeysExhausted)
  {
    hide FairCourse, NoPairs, Decided;
    DecidedQuiet(s', trail, AllKeysExhausted, Period.ResolveReset(s0.reset, now), now);
  }

  /** A failed send ends it too. */
  lemma CourseSendFailed(s0: PoolState, s: PoolState, client: string, now: nat, trail: seq<Attempt>, l: Locals,
                         mid: PoolState, key: nat, u: Upstream)
    requires Course(s0, s, client, now, trail, l) && u.SendError? && Inv(s) && client != "" && now < PERMANENT_END
    requires SelectForClientStep(s, client, now, mid, key) && Inv(mid) && key < |s.keys|
    ensures CourseOver(s0, mid, now, trail + [Attempt(key, u)], SendFailed(u.retryable))
  {
    hide FairCourse, NoPairs, Decided, SelectForClientStep, Inv, Spends, Available, NoneGained, Distance, Active;
    var reset, a := Period.ResolveReset(s0.reset, now), Attempt(key, u);
    ReplyStep(s, client, now, mid, key, Reply(0, None));
    SelectionSettles(s, client, now, mid, key);
    SettledActive(mid, client, now);
    ActiveOrSpent(mid, key, a, reset, now);
    SpendsLast(trail, a);
    CourseGrows(s0.keys, s.keys, trail, a, mid.keys, reset, now);
    NoFailure(a, reset, now);
    QuietGrows(trail, a, reset, now);
    DecidedQuiet(mid, trail + [a], SendFailed(u.retryable), reset, now);
  }

  // ---------------------------------------------------------------------------
  // The loop

  /** What the loop as a whole keeps, and the course of the request. */
  ghost predicate RequestAt(s0: PoolState, s: PoolState, client: string, now: nat, trail: seq<Attempt>, l: Locals,
                            hits: set<nat>, upstream: nat -> Upstream) {
    && Inv(s) && l.retries <= 2
    && LoopAt(s0, s, client, now, trail, l, hits, upstream) && Course(s0, s, client, now, trail, l)
  }

  ghost predicate RequestOver(s0: PoolState, s: PoolState, now: nat, trail: seq<Attempt>, outcome: Outcome,
                              upstream: nat -> Upstream) {
    Ended(s0, s, now, trail, outcome, upstream) && CourseOver(s0, s, now, trail, outcome)
  }

  lemma RequestStarts(s: PoolState, client: string, now: nat, upstream: nat -> Upstream)
    requires Inv(s) && OnlyHardFailures(s) && client != "" && now < PERMANENT_END
    ensures RequestAt(s, s, client, now, [], Locals(0, NoReason, 0), {}, upstream)
  {
    hide Inv, OnlyHardFailures, LoopAt, Course;
    LoopStarts(s, client, now, upstream);
    CourseStarts(s, client, now);
  }

  lemma RequestNoKey(s0: PoolState, s: PoolState, client: string, now: nat, trail: seq<Attempt>, l: Locals,
                     hits: set<nat>, upstream: nat -> Upstream, mid: PoolState)
    requires RequestAt(s0, s, client, now, trail, l, hits, upstream) && Inv(s) && client != ""
    requires SelectForClientStep(s, client, now, mid, -1) && mid.inFlight == s.inFlight
    ensures RequestOver(s0, mid, now, trail, AllKeysExhausted, upstream)
  {
    hide Inv, LoopAt, Course, CourseOver, Ended, SelectForClientStep;
    NoKeyEnds(s0, s, client, now, trail, l, hits, upstream, mid);
    NoKeyNoChange(s, client, now, mid);
    CourseExhausted(s0, s, client, now, trail, l, mid);
  }

  lemma RequestSendFailed(s0: PoolState, s: PoolState, client: string, now: nat, trail: seq<Attempt>, l: Locals,
                          hits: set<nat>, upstream: nat -> Upstream, mid: PoolState, key: nat)
    requires RequestAt(s0, s, client, now, trail, l, hits, upstream) && upstream(|trail|).SendError?
    requires Inv(s) && SelectForClientStep(s, client, now, mid, key) && Inv(mid) && key < |s.keys|
    ensures var u := upstream(|trail|);
            RequestOver(s0, mid, now, trail + [Attempt(key, u)], SendFailed(u.retryable), upstream)
  {
    hide Inv, Course, CourseOver, Ended, SelectForClientStep, LoopInv, Potential, Matches, OnlyHardFailures;
    SendFailedEnds(s0, s, client, now, trail, l, hits, upstream, mid, key);
    CourseSendFailed(s0, s, client, now, trail, l, mid, key, upstream(|trail|));
  }

  /** A reply in hand, and what the loop makes of it. */
  lemma RequestPass(s0: PoolState, s: PoolState, client: string, now: nat, trail: seq<Attempt>, l: Locals,
                    hits: set<nat>, upstream: nat -> Upstream, mid: PoolState, key: nat, verdict: Verdict,
                    s': PoolState)
    requires RequestAt(s0, s, client, now, trail, l, hits, upstream) && Inv(s)
    requires InHand(s0, s, client, now, trail, l, hits, mid, key, upstream(|trail|))
    requires upstream(|trail|).Reply? && CountAvailable(s.keys, now) > 0
    requires Inv(AfterReply(mid, key, upstream(|trail|), now))
    requires key < |AfterReply(mid, key, upstream(|trail|), now).keys|
    requires Handled(AfterReply(mid, key, upstream(|trail|), now), key, upstream(|trail|), l, now, verdict, s')
    ensures var u := upstream(|trail|);
            var t, trail' := AfterReply(mid, key, u, now), trail + [Attempt(key, u)];
            && (verdict.Done? ==> RequestOver(s0, s', now, trail', verdict.outcome, upstream))
            && (verdict.GoOn? ==>
                  && RequestAt(s0, s', client, now, trail', verdict.l, HitsAfter(t, key, u, l, hits), upstream)
                  && Inv(s') && Progress(s, l.retries, s', verdict.l.retries, client, now))
  {
    hide Inv, Course, CourseOver, Ended, SelectForClientStep, LoopInv, LoopAt, Handled, AfterReply, Progress, HitsAfter;
    hide CountAvailable;
    var u, t := upstream(|trail|), AfterReply(mid, key, upstream(|trail|), now);
    ReplyTaken(s0, s, client, now, trail, l, mid, key, u);
    PassDone(s0, s, client, now, trail, l, hits, upstream, mid, key, t, verdict, s');
    CoursePass(s0, s, client, now, trail, l, key, u, t, verdict, s');
    if verdict.GoOn? {
      LoopAtFacts(s0, s', client, now, trail + [Attempt(key, u)], verdict.l, HitsAfter(t, key, u, l, hits), upstream);
    }
  }

  lemma LoopAtFacts(s0: PoolState, s: PoolState, client: string, now: nat, trail: seq<Attempt>, l: Locals,
                    hits: set<nat>, upstream: nat -> Upstream)
    requires LoopAt(s0, s, client, now, trail, l, hits, upstream)
    ensures Inv(s) && l.retries <= 2
  {
    hide Inv, LoopInv, Potential, Matches, OnlyHardFailures;
  }

  /** The inner retry loop of `ServeHTTP` over one target with a key pool. It ends
      for every sequence of upstream replies; `sent` counts the replies consumed, and
      `probes(n)` says what a wake-up in the n-th forward finds. */
  method RunKeyLoop(pool: KeyPool, client: string, upstream: nat -> Upstream, probes: nat -> (nat -> bool), now: nat)
    returns (outcome: Outcome, body: ResponseBody?, sent: nat, ghost trail: seq<Attempt>)
    requires pool.Valid() && pool.clock <= now < PERMANENT_END && client != ""
    requires OnlyHardFailures(pool.Abs()) && forall j: nat :: KnownReply(upstream(j))
    modifies pool, pool.entries, pool.inFlight, pool.tokenSamples
    ensures pool.Valid() && OnlyHardFailures(pool.Abs())
    ensures |trail| == sent && Matches(trail, upstream)
    ensures sent <= CountAvailable(old(pool.Abs()).keys, now) * SendsPerKey(|old(pool.Abs()).keys|)
    ensures Concluded(old(pool.Abs()), pool.Abs(), now, trail, outcome)
    ensures var reset := Period.ResolveReset(old(pool.Abs()).reset, now);
            && FairCourse(old(pool.Abs()).keys, pool.Abs().keys, trail, reset, now)
            && Decided(pool.Abs(), trail, outcome, reset, now)
    ensures outcome.Response? <==> body != null
    ensures body != null ==> body.open && body.pool == pool && body.key == outcome.key
  {
    hide KeyPool.Valid, KeyPool.Abs, Inv, LoopInv, Concluded, Handled, HitsAfter, Matches, InHand, KnownReply;
    hide SelectForClientStep, AfterReply, AcquireStep, OnlyHardFailures, Potential, SendsPerKey;
    hide CountAvailable, Distance, LoopAt, Course, FairCourse, Decided;
    var l, desperationProbe := Locals(0, NoReason, 0), false;
    ghost var s0, hits := pool.Abs(), {};
    ghost var s := s0;
    sent, trail := 0, [];
    pool.ValidInv();
    RequestStarts(s0, client, now, upstream);
    while true
      invariant pool.Valid() && pool.clock <= now && s == pool.Abs() && |trail| == sent
      invariant RequestAt(s0, s, client, now, trail, l, hits, upstream)
      decreases CountAvailable(s.keys, now), Distance(s, client, now), 2 - l.retries
    {
      HardKept(s0, s, client, now, trail, l, hits, upstream);
      var u := upstream(sent);
      var res, b, mid := ForwardRequest(pool, client, u, probes(sent), now, now);
      if res.NoKey? {
        RequestNoKey(s0, s, client, now, trail, l, hits, upstream, mid);
        outcome, body := AllKeysExhausted, null;
        break;
      }
      if res.Failed? {
        RequestSendFailed(s0, s, client, now, trail, l, hits, upstream, mid, res.key);
        sent, trail := sent + 1, trail + [Attempt(res.key, u)];
        outcome, body := SendFailed(res.retryable), null;
        break;
      }
      ghost var t := AfterReply(mid, res.key, u, now);
      ReplyFit(s0, s, client, now, trail, l, hits, upstream, mid, res.key);
      var verdict, open := HandleReply(pool, client, b, res.key, u, upstream(sent + 1), probes(sent + 1), l,
                                       desperationProbe, now, t);
      RequestPass(s0, s, client, now, trail, l, hits, upstream, mid, res.key, verdict, pool.Abs());
      sent, trail := sent + 1, trail + [Attempt(res.key, u)];
      if verdict.Done? {
        outcome, body := verdict.outcome, open;
        break;
      }
      hits, s := HitsAfter(t, res.key, u, l, hits), pool.Abs();
      l, desperationProbe := verdict.l, verdict.probe;
    }
  }
}

/** When the retry loop of one request ends, if the upstream answers every send with a
    plain 429 and the loop sleeps as it does between the sends: three sends a round, after
    which the key cools down for five seconds and the next one takes over. */
module RetryRounds {
  import opened Clock
  import opened Wrappers
  import Affinity
  import opened KeyState
  import opened KeySelection
  import KeyRuns
  import Modular
  import opened RetryLoop
  import opened RetryClock

  const PLAIN_429: Upstream := Reply(429, None)

  /** How long a key rests after its third 429. */
  const RATE_LIMIT_REST: nat := 5 * SECOND

  /** How long a reply takes, and the pauses before the second and the third send. */
  datatype Pace = Pace(latency: nat, first: nat, second: nat)

  /** The loop's own pauses, when the reply names none. */
  const OWN_PAUSES: Pace := Pace(0, 1 * SECOND, 2 * SECOND)

  function RoundLength(pace: Pace): nat { 3 * pace.latency + pace.first + pace.second }

  /** The pause before a send, by the retries spent; there is none when the key was
      switched. */
  function PauseBefore(retries: nat, pace: Pace): nat {
    if retries == 0 then 0 else if retries == 1 then pace.first else pace.second
  }

  /** From a send to the third reply of its round. */
  function TimeLeft(retries: nat, pace: Pace): nat {
    if retries == 0 then RoundLength(pace)
    else if retries == 1 then 2 * pace.latency + pace.second
    else pace.latency
  }

  /** Passes of the loop at this pace, the first send at `at`, with 429 replies only. */
  ghost predicate Rounds(s: PoolState, l: Locals, client: string, at: nat, pace: Pace, passes: seq<Pass>)
    decreases |passes|
  {
    Inv(s)
    && (passes == []
        || (passes[0].at == at && passes[0].done == at + pace.latency && passes[0].reply == PLAIN_429
            && GoesOn(s, l, client, passes[0])
            && Rounds(passes[0].next, passes[0].l, client,
                      passes[0].done + PauseBefore(passes[0].l.retries, pace), pace, passes[1..])))
  }

  /** They are passes of the loop. */
  lemma {:induction false} RoundsArePasses(s: PoolState, l: Locals, client: string, at: nat, pace: Pace,
                                           passes: seq<Pass>, from: nat)
    requires Rounds(s, l, client, at, pace, passes) && from <= at
    ensures Passes(s, l, client, from, passes)
    ensures forall j :: 0 <= j < |passes| ==> passes[j].reply == PLAIN_429
    decreases |passes|
  {
    hide Inv, GoesOn;
    if passes != [] {
      var p := passes[0];
      RoundsArePasses(p.next, p.l, client, p.done + PauseBefore(p.l.retries, pace), pace, passes[1..], p.done);
      assert forall j :: 0 < j < |passes| ==> passes[j] == passes[1..][j - 1];
    }
  }

  // ---------------------------------------------------------------------------
  // Keys that cool down past an instant

  predicate Late(e: KeyEntry, x: Time) { !e.blocked && e.cooldownEnd > x }

  function CountLate(keys: seq<KeyEntry>, x: Time): nat {
    if keys == [] then 0 else (if Late(keys[0], x) then 1 else 0) + CountLate(keys[1..], x)
  }

  lemma {:induction false} LateGrows(a: seq<KeyEntry>, x: Time, b: seq<KeyEntry>, y: Time)
    requires |a| == |b| && forall i :: 0 <= i < |a| && Late(a[i], x) ==> Late(b[i], y)
    ensures CountLate(a, x) <= CountLate(b, y)
  {
    if a != [] {
      LateGrows(a[1..], x, b[1..], y);
    }
  }

  /** All but one key: at most one more. */
  lemma {:induction false} LateButOne(a: seq<KeyEntry>, x: Time, b: seq<KeyEntry>, y: Time, k: nat)
    requires k < |a| == |b| && forall i :: 0 <= i < |a| && i != k && Late(a[i], x) ==> Late(b[i], y)
    ensures CountLate(a, x) <= CountLate(b, y) + 1
  {
    if k == 0 {
      LateGrows(a[1..], x, b[1..], y);
    } else {
      LateButOne(a[1..], x, b[1..], y, k - 1);
    }
  }

  /** One key more that was not late before. */
  lemma {:induction false} LateOneMore(a: seq<KeyEntry>, x: Time, b: seq<KeyEntry>, y: Time, k: nat)
    requires k < |a| == |b| && forall i :: 0 <= i < |a| && Late(a[i], x) ==> Late(b[i], y)
    requires !Late(a[k], x) && Late(b[k], y)
    ensures CountLate(a, x) < CountLate(b, y)
  {
    if k == 0 {
      LateGrows(a[1..], x, b[1..], y);
    } else {
      LateOneMore(a[1..], x, b[1..], y, k - 1);
    }
  }

  lemma {:induction false} SomeRested(keys: seq<KeyEntry>, x: Time) returns (i: nat)
    requires CountLate(keys, x) < CountUnblocked(keys)
    ensures i < |keys| && Available(keys[i], x)
  {
    if Available(keys[0], x) {
      i := 0;
    } else {
      i := SomeRested(keys[1..], x);
      i := i + 1;
    }
  }

  lemma {:induction false} RestedCounts(keys: seq<KeyEntry>, x: Time, i: nat)
    requires i < |keys| && Available(keys[i], x)
    ensures CountLate(keys, x) < CountUnblocked(keys)
  {
    if i > 0 {
      RestedCounts(keys[1..], x, i - 1);
    } else {
      LateAreUnblocked(keys[1..], x);
    }
  }

  lemma {:induction false} LateAreUnblocked(keys: seq<KeyEntry>, x: Time)
    ensures CountLate(keys, x) <= CountUnblocked(keys)
  {
    if keys != [] {
      LateAreUnblocked(keys[1..], x);
    }
  }

  lemma {:induction false} NoneLate(keys: seq<KeyEntry>, x: Time)
    requires forall i :: 0 <= i < |keys| ==> !Late(keys[i], x)
    ensures CountLate(keys, x) == 0
  {
    if keys != [] {
      NoneLate(keys[1..], x);
    }
  }

  // ---------------------------------------------------------------------------
  // What a pass with a plain 429 does

  lemma RetryEffect(s: PoolState, l: Locals, client: string, p: Pass)
    requires Inv(s) && client != "" && GoesOn(s, l, client, p) && p.reply == PLAIN_429 && l.retries < 2
    ensures Inv(p.next) && p.l.retries == l.retries + 1 && p.key < |s.keys| == |p.next.keys|
    ensures Available(s.keys[p.key], p.at) && Available(p.next.keys[p.key], p.at)
    ensures forall i :: 0 <= i < |s.keys| ==> MaybeRecovered(s.keys[i], p.next.keys[i], p.at)
  {
    hide Inv, SelectForClientStep, Switched, SelectKeyStep;
    ForwardEffect(s, l, client, p);
    ActiveIsAvailable(p.mid, p.key, p.at);
  }

  /** The key in use rests from now on, and another one is there to take over. */
  lemma SwitchEffect(s: PoolState, l: Locals, client: string, p: Pass) returns (r: nat)
    requires Inv(s) && client != "" && GoesOn(s, l, client, p) && p.reply == PLAIN_429 && l.retries >= 2
    ensures Inv(p.next) && p.l.retries == 0 && p.key < |s.keys| == |p.next.keys|
    ensures Available(s.keys[p.key], p.at)
    ensures !p.next.keys[p.key].blocked && p.next.keys[p.key].cooldownEnd == p.done + RATE_LIMIT_REST
    ensures forall i :: 0 <= i < |s.keys| && i != p.key ==> MaybeRecovered(s.keys[i], p.next.keys[i], p.done)
    ensures r < |s.keys| && Available(p.next.keys[r], p.done)
  {
    hide Inv, SelectForClientStep, NextActiveStep, SelectKeyStep;
    ForwardEffect(s, l, client, p);
    var t2 := MarkStep(p.mid, p.key, RateLimited, p.done);
    r := NextActiveStep(t2, p.key, p.done).1;
    KeyRuns.StepKeepsInv(p.mid, KeyRuns.MarkExhausted(p.key, RateLimited), p.done, t2, -1);
    SelectorEffect(t2, KeyRuns.SelectNextActive(p.key), p.done, p.next, r);
    NextActiveSound(t2, p.key, p.done);
    ActiveIsAvailable(p.next, r, p.done);
  }

  // ---------------------------------------------------------------------------
  // Too few keys, or rounds too short

  /** Unblocked keys that are rested before `h`. */
  function CountEarly(keys: seq<KeyEntry>, h: nat): int { CountUnblocked(keys) - CountLate(keys, h - 1) }

  lemma RetryKeepsEarly(s: PoolState, l: Locals, client: string, p: Pass, h: nat)
    requires Inv(s) && client != "" && GoesOn(s, l, client, p) && p.reply == PLAIN_429 && l.retries < 2
    requires p.at < h
    ensures Inv(p.next) && p.l.retries == l.retries + 1
    ensures CountEarly(p.next.keys, h) == CountEarly(s.keys, h) > 0
  {
    hide Inv, GoesOn, CountLate, CountUnblocked;
    RetryEffect(s, l, client, p);
    PassKeepsBlocks(s, l, client, p);
    SameBlocksCount(s.keys, p.next.keys);
    LateGrows(s.keys, h - 1, p.next.keys, h - 1);
    LateGrows(p.next.keys, h - 1, s.keys, h - 1);
    RestedCounts(s.keys, h - 1, p.key);
  }

  lemma SwitchDropsEarly(s: PoolState, l: Locals, client: string, p: Pass, h: nat)
    requires Inv(s) && client != "" && GoesOn(s, l, client, p) && p.reply == PLAIN_429 && l.retries >= 2
    requires p.done < h <= p.done + RATE_LIMIT_REST
    ensures Inv(p.next) && p.l.retries == 0
    ensures 0 < CountEarly(p.next.keys, h) < CountEarly(s.keys, h)
  {
    hide Inv, SelectForClientStep, AfterReply, Handled, CountLate, CountUnblocked;
    assert p.at <= p.done;
    var r := SwitchEffect(s, l, client, p);
    PassKeepsBlocks(s, l, client, p);
    SameBlocksCount(s.keys, p.next.keys);
    LateOneMore(s.keys, h - 1, p.next.keys, h - 1, p.key);
    RestedCounts(p.next.keys, h - 1, r);
  }

  /** If the rounds it takes to use up the rested keys fit into one rest, the loop ends
      with the last of these keys. */
  lemma {:induction false} EndsByHorizon(s: PoolState, l: Locals, client: string, at: nat, pace: Pace,
                                         passes: seq<Pass>, h: nat)
    requires client != "" && l.retries <= 2 && Rounds(s, l, client, at, pace, passes)
    requires at + TimeLeft(l.retries, pace) < h <= at + TimeLeft(l.retries, pace) + RATE_LIMIT_REST
    requires CountEarly(s.keys, h) > 0 ==>
      at + TimeLeft(l.retries, pace) + (CountEarly(s.keys, h) - 1) * RoundLength(pace) < h
    ensures passes != [] ==> |passes| + 1 + l.retries <= 3 * CountEarly(s.keys, h)
    decreases |passes|
  {
    hide Inv, GoesOn, CountEarly, RoundLength;
    if passes != [] {
      var p := passes[0];
      var c, c', n := CountEarly(s.keys, h), CountEarly(p.next.keys, h), RoundLength(pace);
      TimesLeft(pace);
      if l.retries < 2 {
        RetryKeepsEarly(s, l, client, p, h);
        EndsByHorizon(p.next, p.l, client, p.done + PauseBefore(p.l.retries, pace), pace, passes[1..], h);
      } else {
        SwitchDropsEarly(s, l, client, p, h);
        RoundsFit(c', c, n);
        EndsByHorizon(p.next, p.l, client, p.done, pace, passes[1..], h);
      }
    }
  }

  lemma TimesLeft(pace: Pace)
    ensures TimeLeft(0, pace) == RoundLength(pace) == pace.latency + pace.first + TimeLeft(1, pace)
    ensures TimeLeft(1, pace) == pace.latency + pace.second + TimeLeft(2, pace)
    ensures TimeLeft(2, pace) == pace.latency
  {
  }

  /** `c'` rounds take no longer than `c - 1`. */
  lemma RoundsFit(c': int, c: int, n: nat)
    requires 0 < c' < c
    ensures n + (c' - 1) * n <= (c - 1) * n && n <= n + (c' - 1) * n
  {
    Modular.Distribute(c' - 1, 1, n);
    Modular.Distribute(c', c - 1 - c', n);
    Modular.ProductNonNegative(c - 1 - c', n);
    Modular.ProductNonNegative(c' - 1, n);
  }

  // ---------------------------------------------------------------------------
  // Enough keys

  function Later(a: int, b: int): int { if a < b then b else a }

  /** At `t` few keys have long to rest: at most `j` rest beyond what is left of a rest
      after `j` rounds of length `n`. */
  ghost predicate Spread(keys: seq<KeyEntry>, t: nat, n: nat) {
    forall j: nat :: CountLate(keys, Later(t, t + RATE_LIMIT_REST - j * n)) <= j
  }

  lemma RestedIsSpread(keys: seq<KeyEntry>, t: nat, n: nat)
    requires forall i :: 0 <= i < |keys| ==> !Late(keys[i], t)
    ensures Spread(keys, t, n)
  {
    forall j: nat
      ensures CountLate(keys, Later(t, t + RATE_LIMIT_REST - j * n)) <= j
    {
      NoneLate(keys, Later(t, t + RATE_LIMIT_REST - j * n));
    }
  }

  lemma RetryKeepsSpread(a: seq<KeyEntry>, b: seq<KeyEntry>, t: nat, n: nat, now: Time)
    requires Spread(a, t, n) && |a| == |b| && forall i :: 0 <= i < |a| ==> MaybeRecovered(a[i], b[i], now)
    ensures Spread(b, t, n)
  {
    forall j: nat
      ensures CountLate(b, Later(t, t + RATE_LIMIT_REST - j * n)) <= j
    {
      var x := Later(t, t + RATE_LIMIT_REST - j * n);
      LateGrows(b, x, a, x);
      assert CountLate(a, x) <= j;
    }
  }

  /** A round later one more key rests, from then on. */
  lemma SwitchKeepsSpread(a: seq<KeyEntry>, b: seq<KeyEntry>, t: nat, n: nat, k: nat, now: nat)
    requires Spread(a, t, n) && k < |a| == |b| && now == t + n
    requires b[k].cooldownEnd == now + RATE_LIMIT_REST
    requires forall i :: 0 <= i < |a| && i != k ==> MaybeRecovered(a[i], b[i], now)
    ensures Spread(b, now, n)
  {
    forall j: nat
      ensures CountLate(b, Later(now, now + RATE_LIMIT_REST - j * n)) <= j
    {
      var y := Later(now, now + RATE_LIMIT_REST - j * n);
      if j == 0 {
        var x := Later(t, t + RATE_LIMIT_REST - 0 * n);
        assert CountLate(a, x) <= 0;
        LateGrows(b, y, a, x);
      } else {
        var x := Later(t, t + RATE_LIMIT_REST - (j - 1) * n);
        assert CountLate(a, x) <= j - 1;
        assert x <= y by { Modular.Distribute(j - 1, 1, n); }
        LateButOne(b, y, a, x, k);
      }
    }
  }

  /** So with enough rounds to a rest one key is rested. */
  lemma SpreadLeavesOne(keys: seq<KeyEntry>, t: nat, n: nat) returns (i: nat)
    requires Spread(keys, t, n) && (CountUnblocked(keys) - 1) * n >= RATE_LIMIT_REST
    ensures i < |keys| && Available(keys[i], t)
  {
    var j := CountUnblocked(keys) - 1;
    assert j >= 0;
    assert Later(t, t + RATE_LIMIT_REST - j * n) == t;
    assert CountLate(keys, Later(t, t + RATE_LIMIT_REST - j * n)) <= j;
    i := SomeRested(keys, t);
  }

  /** A selection is possible whenever a key is available. */
  lemma SelectionExists(s: PoolState, client: string, now: nat) returns (mid: PoolState, key: nat)
    requires Inv(s) && client != "" && !NoneAvailable(s.keys, now)
    ensures SelectForClientStep(s, client, now, mid, key) && Inv(mid) && key < |mid.keys|
  {
    hide Inv, ChooseForClient;
    var ch := ChooseForClient(s, client, now);
    ChoiceSound(s, client, now);
    var s1 := s.(rr := ch.rr, keys := ch.keys);
    ChosenInv(s, client, now);
    key, mid := ch.idx, s1;
    if ch.rebind {
      var gone := Affinity.EvictionExists(s1.boundAt, client, now);
      mid := Rebind(s1, client, key, now, gone);
      BindKeepsInv(s1, client, key, now, gone);
    }
  }

  lemma ChosenInv(s: PoolState, client: string, now: nat)
    requires Inv(s)
    ensures var ch := ChooseForClient(s, client, now);
            Inv(s.(rr := ch.rr, keys := ch.keys)) && |ch.keys| == |s.keys|
  {
    hide ChooseForClient;
    var ch := ChooseForClient(s, client, now);
    ChoiceSound(s, client, now);
    ChoiceKeys(s, client, now);
    if ch.keys != s.keys {
      KeyRuns.KeyUpdateKeepsInv(s, ch.idx, Recovered(s.keys[ch.idx]));
    }
    KeyRuns.CounterKeepsInv(s.(keys := ch.keys), ch.rr);
  }

  /** The pass with a plain 429 that an available key makes possible, if after a third one
      another key is rested. */
  lemma PassExists(s: PoolState, l: Locals, client: string, at: nat, done: nat) returns (p: Pass)
    requires Inv(s) && client != "" && at <= done && l.retries <= 2 && !NoneAvailable(s.keys, at)
    requires l.retries == 2 ==>
      forall key: nat :: key < |s.keys| && Available(s.keys[key], at) ==> OtherRested(s.keys, key, done)
    ensures GoesOn(s, l, client, p) && p.at == at && p.done == done && p.reply == PLAIN_429
  {
    hide Inv, SelectForClientStep, NextActiveStep;
    var mid, key := SelectionExists(s, client, at);
    if l.retries < 2 {
      p := Pass(at, done, PLAIN_429, mid, key, mid, l.(retries := l.retries + 1));
    } else {
      SelectForClientSound(s, client, at, mid, key);
      SelectorEffect(s, KeyRuns.SelectForClient(client), at, mid, key);
      var t2 := MarkStep(mid, key, RateLimited, done);
      var (t3, r) := NextActiveStep(t2, key, done);
      KeyRuns.StepKeepsInv(mid, KeyRuns.MarkExhausted(key, RateLimited), done, t2, -1);
      SelectorEffect(t2, KeyRuns.SelectNextActive(key), done, t3, r);
      NextActiveSound(t2, key, done);
      assert OtherRested(s.keys, key, done);
      var i: nat :| i < |s.keys| && i != key && Available(s.keys[i], done);
      assert Available(t2.keys[i], done);
      p := Pass(at, done, PLAIN_429, mid, key, t3, l.(retries := 0));
    }
  }

  ghost predicate OtherRested(keys: seq<KeyEntry>, key: nat, now: Time) {
    exists i: nat :: i < |keys| && i != key && Available(keys[i], now)
  }

  /** If the rounds of all other keys fill a rest, one of them is rested when a key is
      marked. */
  lemma OthersRest(keys: seq<KeyEntry>, key: nat, t: nat, n: nat)
    requires Spread(keys, t, n) && (CountUnblocked(keys) - 1) * n >= RATE_LIMIT_REST
    requires key < |keys| && !keys[key].blocked
    ensures OtherRested(keys, key, t + n)
  {
    hide Spread;
    var marked := keys[key := keys[key].(cooldownEnd := t + n + RATE_LIMIT_REST)];
    SwitchKeepsSpread(keys, marked, t, n, key, t + n);
    SameBlocksCount(keys, marked);
    var i := SpreadLeavesOne(marked, t + n, n);
    assert i != key && Available(keys[i], t + n);
  }

  /** Before a send at `at`: a key is rested, the third reply of the round comes a round
      after `base`, when the keys were spread, and there are enough of them. */
  ghost predicate Rotating(s: PoolState, retries: nat, at: nat, base: nat, pace: Pace) {
    && retries <= 2 && !NoneAvailable(s.keys, at)
    && Spread(s.keys, base, RoundLength(pace)) && base + RoundLength(pace) == at + TimeLeft(retries, pace)
    && (CountUnblocked(s.keys) - 1) * RoundLength(pace) >= RATE_LIMIT_REST
  }

  lemma RotatingGoes(s: PoolState, l: Locals, client: string, at: nat, base: nat, pace: Pace) returns (p: Pass)
    requires Inv(s) && client != "" && Rotating(s, l.retries, at, base, pace)
    ensures GoesOn(s, l, client, p) && p.at == at && p.done == at + pace.latency && p.reply == PLAIN_429
  {
    hide Inv, GoesOn, Spread, CountUnblocked, RoundLength, TimeLeft;
    if l.retries == 2 {
      TimesLeft(pace);
      forall key: nat | key < |s.keys| && Available(s.keys[key], at)
        ensures OtherRested(s.keys, key, at + pace.latency)
      {
        OthersRest(s.keys, key, base, RoundLength(pace));
      }
    }
    p := PassExists(s, l, client, at, at + pace.latency);
  }

  lemma RotatingStep(s: PoolState, l: Locals, client: string, at: nat, base: nat, pace: Pace, p: Pass)
    returns (base': nat)
    requires Inv(s) && client != "" && Rotating(s, l.retries, at, base, pace)
    requires GoesOn(s, l, client, p) && p.at == at && p.done == at + pace.latency && p.reply == PLAIN_429
    ensures Inv(p.next) && Rotating(p.next, p.l.retries, p.done + PauseBefore(p.l.retries, pace), base', pace)
  {
    hide Inv, GoesOn, Spread, CountUnblocked, RoundLength, TimeLeft;
    TimesLeft(pace);
    PassKeepsBlocks(s, l, client, p);
    SameBlocksCount(s.keys, p.next.keys);
    if l.retries < 2 {
      RetryEffect(s, l, client, p);
      RetryKeepsSpread(s.keys, p.next.keys, base, RoundLength(pace), at);
      base' := base;
    } else {
      var r := SwitchEffect(s, l, client, p);
      SwitchKeepsSpread(s.keys, p.next.keys, base, RoundLength(pace), p.key, p.done);
      base' := p.done;
    }
  }

  /** Then passes of any number follow one another. */
  lemma {:induction false} RoundsGoOn(s: PoolState, l: Locals, client: string, at: nat, base: nat, pace: Pace, m: nat)
    returns (passes: seq<Pass>)
    requires Inv(s) && client != "" && Rotating(s, l.retries, at, base, pace)
    ensures |passes| == m && Rounds(s, l, client, at, pace, passes)
    decreases m
  {
    hide Inv, GoesOn, Rotating;
    passes := [];
    if m > 0 {
      var p := RotatingGoes(s, l, client, at, base, pace);
      var base' := RotatingStep(s, l, client, at, base, pace, p);
      var rest := RoundsGoOn(p.next, p.l, client, p.done + PauseBefore(p.l.retries, pace), base', pace, m - 1);
      passes := [p] + rest;
      assert passes[1..] == rest;
    }
  }

  /** When the send after these passes begins. */
  function NextStart(at: nat, pace: Pace, passes: seq<Pass>): nat {
    if passes == [] then at
    else passes[|passes| - 1].done + PauseBefore(passes[|passes| - 1].l.retries, pace)
  }

  /** The loop goes through one more pass from here. */
  ghost predicate Goes(s: PoolState, l: Locals, client: string, at: nat, pace: Pace) {
    Inv(s) && !Stuck(s, l, client, at, at + pace.latency, PLAIN_429)
  }

  /** And whatever bindings are evicted, no passes lead to the end of the loop. */
  lemma {:induction false} NeverStuck(s: PoolState, l: Locals, client: string, at: nat, base: nat, pace: Pace,
                                      passes: seq<Pass>)
    requires client != "" && Rounds(s, l, client, at, pace, passes) && Rotating(s, l.retries, at, base, pace)
    ensures Goes(PoolAfter(s, passes), LocalsAfter(l, passes), client, NextStart(at, pace, passes), pace)
    decreases |passes|
  {
    hide Inv, GoesOn, Rotating;
    if passes == [] {
      var p := RotatingGoes(s, l, client, at, base, pace);
    } else {
      var p := passes[0];
      var base' := RotatingStep(s, l, client, at, base, pace, p);
      NeverStuck(p.next, p.l, client, p.done + PauseBefore(p.l.retries, pace), base', pace, passes[1..]);
    }
  }

  // ---------------------------------------------------------------------------
  // Exactly when

  ghost predicate HasRounds(s: PoolState, client: string, at: nat, pace: Pace, m: nat) {
    exists passes :: |passes| == m && Rounds(s, FIRST, client, at, pace, passes)
  }

  /** The loop can go through any number of passes. */
  ghost predicate RoundsWithoutEnd(s: PoolState, client: string, at: nat, pace: Pace) {
    forall m: nat :: HasRounds(s, client, at, pace, m)
  }

  /** Whatever it has gone through, the loop goes on. */
  ghost predicate NeverEnds(s: PoolState, client: string, at: nat, pace: Pace) {
    forall passes :: Rounds(s, FIRST, client, at, pace, passes) ==>
      Goes(PoolAfter(s, passes), LocalsAfter(FIRST, passes), client, NextStart(at, pace, passes), pace)
  }

  /** Every unblocked key is rested. */
  ghost predicate AllRested(keys: seq<KeyEntry>, now: Time) {
    forall i :: 0 <= i < |keys| && !keys[i].blocked ==> keys[i].cooldownEnd <= now
  }

  lemma {:induction false} AllRestedAvailable(keys: seq<KeyEntry>, now: Time) returns (i: nat)
    requires AllRested(keys, now) && CountUnblocked(keys) > 0
    ensures i < |keys| && Available(keys[i], now)
  {
    NoneLate(keys, now);
    i := SomeRested(keys, now);
  }

  lemma EnoughKeys(s: PoolState, client: string, at: nat, pace: Pace)
    requires Inv(s) && client != "" && AllRested(s.keys, at)
    requires (CountUnblocked(s.keys) - 1) * RoundLength(pace) >= RATE_LIMIT_REST
    ensures RoundsWithoutEnd(s, client, at, pace) && NeverEnds(s, client, at, pace)
  {
    hide Inv, Rounds, CountUnblocked, RoundLength, Goes;
    RestedIsSpread(s.keys, at, RoundLength(pace));
    TimesLeft(pace);
    var i := AllRestedAvailable(s.keys, at);
    forall passes | Rounds(s, FIRST, client, at, pace, passes)
      ensures Goes(PoolAfter(s, passes), LocalsAfter(FIRST, passes), client, NextStart(at, pace, passes), pace)
    {
      NeverStuck(s, FIRST, client, at, at, pace, passes);
    }
    forall m: nat
      ensures HasRounds(s, client, at, pace, m)
    {
      var passes := RoundsGoOn(s, FIRST, client, at, at, pace, m);
    }
  }

  /** With fewer, at most three sends for each unblocked key, from any pool: the last of
      them does not go on. */
  lemma TooFewKeys(s: PoolState, client: string, at: nat, pace: Pace, passes: seq<Pass>)
    requires client != "" && Rounds(s, FIRST, client, at, pace, passes)
    requires (CountUnblocked(s.keys) - 1) * RoundLength(pace) < RATE_LIMIT_REST
    ensures passes != [] ==> |passes| < 3 * CountUnblocked(s.keys)
  {
    hide Rounds, RoundLength;
    var n, h := RoundLength(pace), at + RoundLength(pace) + RATE_LIMIT_REST;
    TimesLeft(pace);
    var c, all := CountEarly(s.keys, h), CountUnblocked(s.keys);
    assert c <= all;
    Modular.Distribute(c - 1, all - c, n);
    Modular.ProductNonNegative(all - c, n);
    EndsByHorizon(s, FIRST, client, at, pace, passes, h);
  }

  /** Answered with 429s only, from a pool whose unblocked keys are all rested, the loop
      goes on for ever if and only if the rounds of all unblocked keys but one last at
      least the five seconds that a key rests. */
  lemma EndlessIff(s: PoolState, client: string, at: nat, pace: Pace)
    requires Inv(s) && client != "" && AllRested(s.keys, at)
    ensures RoundsWithoutEnd(s, client, at, pace)
       <==> (CountUnblocked(s.keys) - 1) * RoundLength(pace) >= RATE_LIMIT_REST
    ensures RoundsWithoutEnd(s, client, at, pace) ==> NeverEnds(s, client, at, pace)
  {
    hide Inv, Rounds, RoundLength, NeverEnds;
    var c := CountUnblocked(s.keys);
    if (c - 1) * RoundLength(pace) >= RATE_LIMIT_REST {
      EnoughKeys(s, client, at, pace);
    } else if RoundsWithoutEnd(s, client, at, pace) {
      var m: nat := 3 * c + 1;
      assert HasRounds(s, client, at, pace, m);
      var passes :| |passes| == m && Rounds(s, FIRST, client, at, pace, passes);
      TooFewKeys(s, client, at, pace, passes);
    }
  }

  /** With the loop's own pauses and instant replies that takes three unblocked keys. */
  lemma OwnPausesEndlessIff(s: PoolState, client: string, at: nat)
    requires Inv(s) && client != "" && AllRested(s.keys, at)
    ensures RoundsWithoutEnd(s, client, at, OWN_PAUSES) <==> CountUnblocked(s.keys) >= 3
  {
    EndlessIff(s, client, at, OWN_PAUSES);
    assert RoundLength(OWN_PAUSES) == 3 * SECOND;
  }

  lemma {:induction false} FreshUnblocked(keys: seq<KeyEntry>)
    requires forall i :: 0 <= i < |keys| ==> keys[i] == FRESH_KEY
    ensures CountUnblocked(keys) == |keys|
  {
    if keys != [] {
      FreshUnblocked(keys[1..]);
    }
  }

  /** So a new pool of three keys keeps a request going for ever, one of two does not. */
  lemma FreshKeysEndlessIff(n: nat, reset: Period.ResetSpec, client: string, at: nat)
    requires 0 < n < UINT32 && Period.WellFormedReset(reset) && client != ""
    ensures Inv(InitialState(n, reset))
    ensures RoundsWithoutEnd(InitialState(n, reset), client, at, OWN_PAUSES) <==> n >= 3
  {
    hide Inv, RoundsWithoutEnd, CountUnblocked;
    var s := InitialState(n, reset);
    InitialInv(n, reset);
    FreshUnblocked(s.keys);
    OwnPausesEndlessIff(s, client, at);
  }

  /** A key that rests until `end` after three 429s. */
  function Resting(end: Time): KeyEntry { KeyEntry(true, end - RATE_LIMIT_REST, RateLimited, end, false) }

  /** Three keys in rotation when a round with key `k` begins. */
  function Rotation(k: nat, at: nat): seq<KeyEntry>
    requires k < 3
  {
    var next, last := Resting(at + 2 * SECOND), Resting(at + 5 * SECOND);
    if k == 0 then [FRESH_KEY, next, last] else if k == 1 then [last, FRESH_KEY, next] else [next, last, FRESH_KEY]
  }

  /** The cycle that three keys are in: when key `k` is marked three seconds on, the next
      one has rested, and the keys stand as before, one further and three seconds later. */
  lemma RotationTurns(s: PoolState, k: nat, at: nat)
    requires Inv(s) && k < 3 && s.keys == Rotation(k, at)
    ensures var (s', r) := Switched(s, k, at + 3 * SECOND);
            r == (k + 1) % 3 && s'.keys == Rotation((k + 1) % 3, at + 3 * SECOND)
  {
    hide Inv, CyclicActive, FirstCooled;
    var now := at + 3 * SECOND;
    var t := MarkStep(s, k, RateLimited, now);
    assert t.keys[k] == Resting(now + RATE_LIMIT_REST);
    assert t.keys == if k == 0 then [t.keys[0], s.keys[1], s.keys[2]]
                     else if k == 1 then [s.keys[0], t.keys[1], s.keys[2]]
                     else [s.keys[0], s.keys[1], t.keys[2]];
    NoneActiveOfThree(t.keys, k + 1);
    FirstRested(t.keys, now, (k + 1) % 3);
  }

  lemma NoneActiveOfThree(keys: seq<KeyEntry>, start: nat)
    requires |keys| == 3 && forall i :: 0 <= i < 3 ==> !Active(keys[i])
    ensures CyclicActive(keys, start, 0) == -1
  {
    CyclicActiveComplete(keys, start);
  }

  lemma FirstRested(keys: seq<KeyEntry>, now: Time, j: nat)
    requires j < |keys| && forall i :: 0 <= i < |keys| ==> (Available(keys[i], now) <==> i == j)
    ensures FirstCooled(keys, now, 0) == j
  {
    FirstCooledComplete(keys, now, 0);
    assert Available(keys[j], now);
  }

  // ---------------------------------------------------------------------------
  // Any replies without exhaustion codes, at any pace

  predicate CodeFree(passes: seq<Pass>) {
    forall j :: 0 <= j < |passes| ==> passes[j].reply.Reply? && passes[j].reply.code.None?
  }

  ghost predicate HasPasses(s: PoolState, client: string, from: nat, m: nat) {
    exists passes :: |passes| == m && Passes(s, FIRST, client, from, passes) && CodeFree(passes)
  }

  /** Some upstream and some clock keep the loop going through any number of passes. */
  ghost predicate MayGoOnForEver(s: PoolState, client: string, from: nat) {
    forall m: nat :: HasPasses(s, client, from, m)
  }

  lemma {:induction false} RestedInTheEnd(keys: seq<KeyEntry>, from: nat) returns (at: nat)
    ensures from <= at && AllRested(keys, at)
  {
    at := from;
    if keys != [] {
      at := RestedInTheEnd(keys[1..], from);
      if at < keys[0].cooldownEnd {
        at := keys[0].cooldownEnd;
      }
      assert forall i :: 0 < i < |keys| ==> keys[i] == keys[1..][i - 1];
    }
  }

  /** From any pool there are replies without exhaustion codes, and a clock, with which the
      loop never ends, if and only if two keys are unblocked. */
  lemma MayGoOnForEverIff(s: PoolState, client: string, from: nat)
    requires Inv(s) && client != ""
    ensures MayGoOnForEver(s, client, from) <==> CountUnblocked(s.keys) >= 2
  {
    hide Inv, GoesOn, CountUnblocked;
    if CountUnblocked(s.keys) >= 2 {
      var at := RestedInTheEnd(s.keys, from);
      var pace := Pace(0, RATE_LIMIT_REST, 0);
      EnoughKeys(s, client, at, pace);
      forall m: nat
        ensures HasPasses(s, client, from, m)
      {
        assert HasRounds(s, client, at, pace, m);
        var passes :| |passes| == m && Rounds(s, FIRST, client, at, pace, passes);
        RoundsArePasses(s, FIRST, client, at, pace, passes, from);
        assert CodeFree(passes);
      }
    } else if MayGoOnForEver(s, client, from) {
      var m: nat := 3;
      assert HasPasses(s, client, from, m);
      var passes :| |passes| == m && Passes(s, FIRST, client, from, passes) && CodeFree(passes);
      OneKeyEnds(s, FIRST, client, from, passes);
    }
  }
}

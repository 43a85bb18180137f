/** What `Check` answers, when that answer is right, and how long a wrong one lasts. */
module QuotaChecks {
  import opened Wrappers
  import opened Clock
  import Calendar
  import opened Period
  import Text
  import opened UsageIndex
  import opened Pricing
  import opened QuotaModel
  import opened QuotaRuns

  /** Whether a client is over a limit at `now`, passed periods aside. */
  predicate OverNow(s: QuotaState, c: string, now: nat)
    requires c in s.counters
  {
    FirstOver(FlipAll(s, c, s.counters[c], now, NO_FAULTS)).Some?
  }

  /** A counter whose own period still runs is over its limit. */
  ghost predicate RunningOver(s: QuotaState, c: string, now: nat)
    requires c in s.counters
  {
    exists d :: OverIn(s.counters[c], d) && s.counters[c][d].resetsAt > now
  }

  lemma OverNowMeans(s: QuotaState, c: string, now: nat)
    requires c in s.counters
    ensures OverNow(s, c, now) <==> RunningOver(s, c, now)
  {
    hide FirstOver, NextReset;
    var dims := s.counters[c];
    var flipped := FlipAll(s, c, dims, now, NO_FAULTS);
    FirstOverMeans(flipped);
    forall d: Dimension
      ensures OverIn(flipped, d) <==> OverIn(dims, d) && dims[d].resetsAt > now
    {
    }
    if OverNow(s, c, now) {
      var d :| OverIn(flipped, d);
      assert OverIn(dims, d) && dims[d].resetsAt > now;
    }
    if RunningOver(s, c, now) {
      var d :| OverIn(dims, d) && dims[d].resetsAt > now;
      assert OverIn(flipped, d);
    }
  }

  predicate LiveEntry(s: QuotaState, c: string, now: nat) { c in s.exceeded && s.exceeded[c].resetsAt > now }

  /** In every state that runs keep, `Check` answers whether the client is over a limit
      except in one case: it finds no live entry while a counter of a running period is
      over. It lets the request through then. */
  lemma CheckExact(s: QuotaState, c: string, now: nat, faults: Faults)
    requires c in s.counters && ExceededOk(s)
    ensures (CheckStep(s, c, now, faults).1.Some? <==> OverNow(s, c, now))
       <==> !(!LiveEntry(s, c, now) && RunningOver(s, c, now))
  {
    hide FirstOver, NextReset, FlipAll, Flipped;
    OverNowMeans(s, c, now);
    FirstOverMeans(s.counters[c]);
  }

  // ---------------------------------------------------------------------------
  // How the case comes about

  /** A check that drops an expired entry while another dimension is over and running. */
  ghost predicate Forgets(s: QuotaState, op: QuotaOp, now: nat, c: string) {
    op == Check(c) && c in s.exceeded && s.exceeded[c].resetsAt <= now && c in s.counters && RunningOver(s, c, now)
  }

  /** An evaluation of the client, or a request of it that costs something. */
  predicate Updates(prices: CostTable, op: QuotaOp, c: string) {
    op == Evaluate(c)
    || ((op.RecordAndIncrement? || op.LoseAndIncrement?) && op.e.client == c && EventCost(prices, op.e) > 0.0)
  }

  lemma CheckInStep(s: QuotaState, c: string, now: nat, faults: Faults)
    requires c in s.counters && InStep(s, c) && ExceededOk(s)
    ensures var s' := CheckStep(s, c, now, faults).0;
            c in s'.counters && (InStep(s', c) <==> !Forgets(s, Check(c), now, c))
  {
    hide FirstOver, NextReset;
    var s' := CheckStep(s, c, now, faults).0;
    if c in s.exceeded && s.exceeded[c].resetsAt <= now {
      var dims, dims' := s.counters[c], s'.counters[c];
      forall d: Dimension
        ensures OverIn(dims', d) <==> OverIn(dims, d) && dims[d].resetsAt > now
      {
      }
    }
  }

  /** Entry and counters stay in step through every operation but a check that forgets. */
  lemma StepInStep(prices: CostTable, s: QuotaState, es: seq<Event>, op: QuotaOp, now: nat, faults: Faults,
                   s': QuotaState, es': seq<Event>, c: string)
    requires Step(prices, s, es, op, now, faults, s', es') && ExceededOk(s)
    requires c in s.counters && InStep(s, c) && !Unloads(s, op, faults, c)
    ensures c in s'.counters && (InStep(s', c) <==> !Forgets(s, op, now, c))
  {
    hide Loaded, FirstOver, EventCost, InStep, EvaluateStep, IncrementStep, CheckStep;
    match op
    case RecordAndIncrement(e) => IncrementInStep(prices, s, es', e.client, EventCost(prices, e), now, faults, c);
    case LoseAndIncrement(e) => IncrementInStep(prices, s, es, e.client, EventCost(prices, e), now, faults, c);
    case Evaluate(client) =>
      if client == c {
        EvaluateInStep(prices, s, es, c, now, faults);
      } else {
        EvaluateOthers(prices, s, es, client, now, faults, c);
        SameInStep(s, s', c);
      }
    case Check(client) =>
      if client == c {
        CheckInStep(s, c, now, faults);
      } else {
        CheckOthers(s, client, now, faults, c);
        SameInStep(s, s', c);
      }
    case Configure(client, limits) => SameInStep(s, s', c);
  }

  lemma EvaluateInStep(prices: CostTable, s: QuotaState, es: seq<Event>, c: string, now: nat, faults: Faults)
    requires c in s.counters && InStep(s, c) && !Unloads(s, Evaluate(c), faults, c)
    ensures var s' := EvaluateStep(prices, s, es, c, now, faults); c in s'.counters && InStep(s', c)
  {
    hide Loaded, FirstOver, InStep;
    InStepAfterUpdate(prices, s, es, c, 0.0, now, faults);
  }

  lemma IncrementInStep(prices: CostTable, s: QuotaState, es: seq<Event>, client: string, cost: real, now: nat,
                        faults: Faults, c: string)
    requires c in s.counters && InStep(s, c)
    ensures var s' := IncrementStep(prices, s, es, client, cost, now, faults); c in s'.counters && InStep(s', c)
  {
    hide InStep, IncrementStep;
    var s' := IncrementStep(prices, s, es, client, cost, now, faults);
    if client == c && cost > 0.0 {
      IncrementLoaded(prices, s, es, c, cost, now, faults);
      InStepAfterUpdate(prices, s, es, c, cost, now, faults);
    } else {
      IncrementOthers(prices, s, es, client, cost, now, faults, c);
      SameInStep(s, s', c);
    }
  }

  lemma IncrementLoaded(prices: CostTable, s: QuotaState, es: seq<Event>, c: string, cost: real, now: nat,
                        faults: Faults)
    requires c in s.counters
    ensures c in IncrementStep(prices, s, es, c, cost, now, faults).counters
  {
  }

  lemma SameInStep(s: QuotaState, s': QuotaState, c: string)
    requires c in s.counters && c in s'.counters && s'.counters[c] == s.counters[c]
    requires c in s'.exceeded <==> c in s.exceeded
    ensures InStep(s', c) <==> InStep(s, c)
  {
  }

  lemma CheckOthers(s: QuotaState, client: string, now: nat, faults: Faults, c: string)
    requires client != c
    ensures var s' := CheckStep(s, client, now, faults).0;
            && (c in s'.counters <==> c in s.counters) && (c in s.counters ==> s'.counters[c] == s.counters[c])
            && (c in s'.exceeded <==> c in s.exceeded) && (c in s.exceeded ==> s'.exceeded[c] == s.exceeded[c])
  {
    hide Restarted;
  }

  /** In every run from an update of a client on, its entry exists exactly when one of its
      counters is over, as long as no check has forgotten one; and up to then a check is
      wrong exactly when it is the one that forgets. */
  lemma {:induction false} InStepUntilForgotten(prices: CostTable, moments: seq<Moment>, ops: seq<Timed>, clock: nat,
                                                c: string, k: nat, now: nat, faults: Faults)
    requires IsRun(prices, moments, ops, clock) && k <= |ops| && ExceededOk(moments[0].state)
    requires c in moments[0].state.counters && InStep(moments[0].state, c)
    requires forall j :: 0 <= j < k ==> !Unloads(moments[j].state, ops[j].op, ops[j].faults, c)
    requires forall j :: 0 <= j < k ==> !Forgets(moments[j].state, ops[j].op, ops[j].now, c)
    ensures c in moments[k].state.counters && InStep(moments[k].state, c)
    ensures (CheckStep(moments[k].state, c, now, faults).1.Some? <==> OverNow(moments[k].state, c, now))
       <==> !Forgets(moments[k].state, Check(c), now, c)
  {
    hide Step, ExceededOk, InStep, Forgets, CheckStep, OverNow;
    ExceededSound(prices, moments, ops, clock, k);
    if k > 0 {
      InStepUntilForgotten(prices, moments, ops, clock, c, k - 1, now, faults);
      ExceededSound(prices, moments, ops, clock, k - 1);
      StepInStep(prices, moments[k - 1].state, moments[k - 1].log, ops[k - 1].op, ops[k - 1].now, ops[k - 1].faults,
                 moments[k].state, moments[k].log, c);
    }
    WrongWhenForgets(moments[k].state, c, now, faults);
  }

  lemma WrongWhenForgets(s: QuotaState, c: string, now: nat, faults: Faults)
    requires c in s.counters && ExceededOk(s) && InStep(s, c)
    ensures (CheckStep(s, c, now, faults).1.Some? <==> OverNow(s, c, now)) <==> !Forgets(s, Check(c), now, c)
  {
    hide OverNow, CheckStep;
    CheckExact(s, c, now, faults);
  }

  // ---------------------------------------------------------------------------
  // How long it lasts

  lemma NoEntryStep(prices: CostTable, s: QuotaState, es: seq<Event>, op: QuotaOp, now: nat, faults: Faults,
                    s': QuotaState, es': seq<Event>, c: string)
    requires Step(prices, s, es, op, now, faults, s', es') && c in s.counters && c !in s.exceeded
      && !Updates(prices, op, c)
    ensures c in s'.counters && c !in s'.exceeded && s'.counters[c] == s.counters[c]
  {
    hide EventCost, EvaluateStep, IncrementStep;
    match op
    case RecordAndIncrement(e) => IncrementOthers(prices, s, es', e.client, EventCost(prices, e), now, faults, c);
    case LoseAndIncrement(e) => IncrementOthers(prices, s, es, e.client, EventCost(prices, e), now, faults, c);
    case Evaluate(client) => EvaluateOthers(prices, s, es, client, now, faults, c);
    case Check(client) =>
      if client != c {
        CheckOthers(s, client, now, faults, c);
      }
    case Configure(client, limits) =>
  }

  /** Once a check has forgotten, every later check of the client lets the request
      through, up to the client's next evaluation or paid request; and each of these
      answers is wrong as long as the forgotten dimension's period runs. */
  lemma {:induction false} ForgottenUntilUpdate(prices: CostTable, moments: seq<Moment>, ops: seq<Timed>, clock: nat,
                                                c: string, k: nat, now: nat, faults: Faults)
    requires IsRun(prices, moments, ops, clock) && k <= |ops|
    requires c in moments[0].state.counters && c !in moments[0].state.exceeded
    requires forall j :: 0 <= j < k ==> !Updates(prices, ops[j].op, c)
    ensures c in moments[k].state.counters && c !in moments[k].state.exceeded
    ensures moments[k].state.counters[c] == moments[0].state.counters[c]
    ensures CheckStep(moments[k].state, c, now, faults).1.None?
    ensures OverNow(moments[k].state, c, now) <==> RunningOver(moments[0].state, c, now)
  {
    hide Step, Updates;
    if k > 0 {
      ForgottenUntilUpdate(prices, moments, ops, clock, c, k - 1, now, faults);
      NoEntryStep(prices, moments[k - 1].state, moments[k - 1].log, ops[k - 1].op, ops[k - 1].now, ops[k - 1].faults,
                  moments[k].state, moments[k].log, c);
    }
    OverNowMeans(moments[k].state, c, now);
  }

  // ---------------------------------------------------------------------------
  // A run in which it happens

  /** Client "a" has a daily and a monthly limit of 1 and buys for 2 at noon of the first
      of January; a token of model "m" costs 1. */
  const NOON: nat := 43_200_000_000_000

  const PRICES: CostTable := map["m" := Rates(1000000.0, 0.0, 0.0, 0.0)]

  const LIMITS: Limits := Limits(1.0, 0.0, 1.0)

  const PURCHASE: Event := Event(NOON, "a", "openai", "m", 2, 0, 0, 0, 200)

  const START: QuotaState := QuotaState(map["a" := LIMITS], map[], map[])

  lemma PurchaseCost()
    ensures EventCost(PRICES, PURCHASE) == 2.0
  {
    Text.TrimFixed("m");
    assert Text.Lower("m") == "m";
  }

  lemma FirstResets()
    ensures NextReset(Daily, NOON) == Midnight(1) && NextReset(Monthly, NOON) == Midnight(31)
  {
    Calendar.MonthOfUnique(0, 0);
    assert Calendar.MonthStart(1) == 31;
  }

  function TwoCounters(used: real): Counters {
    map[Daily := DimCounter(1.0, used, Midnight(1)), Monthly := DimCounter(1.0, used, Midnight(31))]
  }

  lemma AfterEvaluation()
    ensures Loaded(PRICES, [], "a", LIMITS, NOON, NO_FAULTS) == TwoCounters(0.0)
  {
    hide LoadedCounter;
    NothingLoaded(Daily);
    NothingLoaded(Monthly);
  }

  lemma NothingLoaded(d: Dimension)
    ensures d != Weekly ==> LoadedCounter(PRICES, [], "a", LIMITS, d, NOON) == TwoCounters(0.0)[d]
  {
    hide NextReset, HourSpent, PeriodFrom, PeriodStart;
    FirstResets();
    NothingSpent(d);
    match d
    case Daily =>
    case Weekly =>
    case Monthly =>
  }

  lemma AfterCharge(s: QuotaState)
    ensures Charged(FlipAll(s, "a", TwoCounters(0.0), NOON, NO_FAULTS), 2.0) == TwoCounters(2.0)
  {
    hide NextReset;
    var dims := TwoCounters(0.0);
    assert forall d :: d in dims ==> LazyFlip(s, "a", d, dims[d], NOON, NO_FAULTS) == dims[d];
    assert FlipAll(s, "a", dims, NOON, NO_FAULTS) == dims;
    hide FlipAll;
  }

  lemma FirstOverOfTwo()
    ensures FirstOver(TwoCounters(0.0)) == None
    ensures FirstOver(TwoCounters(2.0)) == Some(ExceededInfo(Daily, 1.0, 2.0, Midnight(1)))
  {
  }

  /** The counters after an evaluation and the purchase. */
  lemma AfterPurchase(s1: QuotaState, s2: QuotaState)
    requires s1 == EvaluateStep(PRICES, START, [], "a", NOON, NO_FAULTS)
    requires s2 == IncrementStep(PRICES, s1, [PURCHASE], "a", 2.0, NOON, NO_FAULTS)
    ensures s2.counters == map["a" := TwoCounters(2.0)]
    ensures s2.exceeded == map["a" := ExceededInfo(Daily, 1.0, 2.0, Midnight(1))]
  {
    hide TwoCounters, Loaded, Charged, FlipAll, FirstOver, NextReset;
    AfterEvaluation();
    AfterCharge(s1);
    FirstOverOfTwo();
  }

  lemma NothingSpent(d: Dimension)
    ensures HourSpent(PRICES, [], "a", PeriodFrom(d, NOON), NOON) == 0.0
  {
  }

  /** Four operations: evaluate at startup, buy, check at the next midnight, check again. */
  function ForgettingOps(): seq<Timed> {
    [Timed(Evaluate("a"), NOON, NO_FAULTS), Timed(RecordAndIncrement(PURCHASE), NOON, NO_FAULTS),
     Timed(Check("a"), Midnight(1), NO_FAULTS), Timed(Check("a"), Midnight(1), NO_FAULTS)]
  }

  /** From a new manager with an empty log: after the purchase client "a" is over its
      daily and its monthly limit. The check at midnight drops the daily entry and lets
      the request through although the month is over, and so does the check after it. */
  lemma CheckForgetsTheMonth() returns (moments: seq<Moment>)
    ensures IsRun(PRICES, moments, ForgettingOps(), NOON) && moments[0] == Moment(START, [])
    ensures forall k :: 2 <= k <= 4 ==> "a" in moments[k].state.counters && OverNow(moments[k].state, "a", Midnight(1))
    ensures Forgets(moments[2].state, Check("a"), Midnight(1), "a")
    ensures forall k :: 2 <= k < 4 ==> CheckStep(moments[k].state, "a", Midnight(1), NO_FAULTS).1.None?
  {
    hide EvaluateStep, IncrementStep, FirstOver, FlipAll, EventCost, NextReset, Flipped;
    PurchaseCost();
    var s1 := EvaluateStep(PRICES, START, [], "a", NOON, NO_FAULTS);
    var s2 := IncrementStep(PRICES, s1, [PURCHASE], "a", 2.0, NOON, NO_FAULTS);
    AfterPurchase(s1, s2);
    var s3 := CheckStep(s2, "a", Midnight(1), NO_FAULTS).0;
    var s4 := CheckStep(s3, "a", Midnight(1), NO_FAULTS).0;
    moments := [Moment(START, []), Moment(s1, []), Moment(s2, [PURCHASE]),
                Moment(s3, [PURCHASE]), Moment(s4, [PURCHASE])];
    assert [][..0] + [PURCHASE] + [][0..] == [PURCHASE];
    assert OverIn(s2.counters["a"], Monthly) && s2.counters["a"][Monthly].resetsAt > Midnight(1);
    assert s3.counters["a"][Monthly] == s2.counters["a"][Monthly] && "a" !in s3.exceeded;
    assert OverIn(s3.counters["a"], Monthly);
    OverNowMeans(s2, "a", Midnight(1));
    OverNowMeans(s3, "a", Midnight(1));
  }
}

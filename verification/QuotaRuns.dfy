/** What the quota counters and the exceeded map mean over whole runs. */
module QuotaRuns {
  import opened Wrappers
  import opened Clock
  import opened Period
  import opened UsageIndex
  import opened Pricing
  import opened QuotaModel

  // ---------------------------------------------------------------------------
  // Sums of spending

  lemma EventCostNonNegative(prices: CostTable, e: Event)
    ensures EventCost(prices, e) >= 0.0
  {
    RequestCostIsCellCost(prices, e);
  }

  lemma {:induction false} SpentAppend(prices: CostTable, a: seq<Event>, b: seq<Event>, c: string, from: int,
                                       until: int)
    ensures Spent(prices, a + b, c, from, until) == Spent(prices, a, c, from, until) + Spent(prices, b, c, from, until)
  {
    hide EventCost;
    if a == [] {
      assert a + b == b;
    } else {
      assert (a + b)[0] == a[0] && (a + b)[1..] == a[1..] + b;
      SpentAppend(prices, a[1..], b, c, from, until);
    }
  }

  /** One more event, wherever it lands in the log, adds its cost to the spans it is in. */
  lemma SpentInsert(prices: CostTable, a: seq<Event>, e: Event, b: seq<Event>, c: string, from: int, until: int)
    ensures Spent(prices, a + [e] + b, c, from, until)
         == Spent(prices, a + b, c, from, until)
            + if e.client == c && from <= e.at < until then EventCost(prices, e) else 0.0
  {
    hide EventCost;
    SpentAppend(prices, a + [e], b, c, from, until);
    SpentAppend(prices, a, [e], c, from, until);
    SpentAppend(prices, a, b, c, from, until);
    assert [e][1..] == [];
  }

  /** No event of the client costs anything from `from` on. */
  ghost predicate FreeFrom(prices: CostTable, es: seq<Event>, c: string, from: int) {
    forall i :: 0 <= i < |es| && es[i].client == c && es[i].at >= from ==> EventCost(prices, es[i]) == 0.0
  }

  lemma {:induction false} SpentNothing(prices: CostTable, es: seq<Event>, c: string, from: int, until: int)
    requires FreeFrom(prices, es, c, from)
    ensures Spent(prices, es, c, from, until) == 0.0
  {
    hide EventCost;
    if es != [] {
      SpentNothing(prices, es[1..], c, from, until);
    }
  }

  /** No event is later than the clock. */
  ghost predicate LogUpTo(es: seq<Event>, clock: nat) {
    forall i :: 0 <= i < |es| ==> es[i].at <= clock
  }

  /** Past the clock the end of the span does not matter. */
  lemma {:induction false} SpentUntil(prices: CostTable, es: seq<Event>, c: string, clock: nat, from: int, u: int,
                                      v: int)
    requires LogUpTo(es, clock) && clock < u && clock < v
    ensures Spent(prices, es, c, from, u) == Spent(prices, es, c, from, v)
  {
    hide EventCost;
    if es != [] {
      SpentUntil(prices, es[1..], c, clock, from, u, v);
    }
  }

  // ---------------------------------------------------------------------------
  // Counters against the log

  /** The counter stands for the period that ends at its reset: a period that has
      begun, with `used` the priced sum of the client's raw events in it, and nothing
      spent since. */
  ghost predicate CounterOk(prices: CostTable, es: seq<Event>, c: string, clock: nat, d: Dimension, dc: DimCounter) {
    && dc.resetsAt > 0 && NextReset(d, dc.resetsAt - 1) == dc.resetsAt
    && PeriodStart(d, dc.resetsAt - 1) <= clock
    && dc.used == Spent(prices, es, c, PeriodStart(d, dc.resetsAt - 1), dc.resetsAt)
    && FreeFrom(prices, es, c, dc.resetsAt)
  }

  ghost predicate CountersOk(prices: CostTable, es: seq<Event>, c: string, clock: nat, dims: Counters) {
    forall d :: d in dims ==> CounterOk(prices, es, c, clock, d, dims[d])
  }

  /** The client is loaded and its counters agree with the log. */
  ghost predicate Tracks(prices: CostTable, s: QuotaState, es: seq<Event>, c: string, clock: nat) {
    c in s.counters && CountersOk(prices, es, c, clock, s.counters[c])
  }

  /** The last instant of a period belongs to it. */
  lemma LastInstant(d: Dimension, now: nat)
    ensures NextReset(d, now) > 0 && NextReset(d, NextReset(d, now) - 1) == NextReset(d, now)
    ensures PeriodStart(d, NextReset(d, now) - 1) == PeriodStart(d, now)
  {
    PeriodBounds(d, now);
    PeriodPartition(d, now, NextReset(d, now) - 1);
  }

  /** A lazily flipped counter is right: nothing was spent since its old reset, and the
      current period starts no earlier than that. */
  lemma FlipOk(prices: CostTable, s: QuotaState, es: seq<Event>, c: string, clock: nat, d: Dimension, dc: DimCounter,
               now: nat, faults: Faults)
    requires CounterOk(prices, es, c, clock, d, dc) && LogUpTo(es, clock) && clock <= now && Expired(dc, now)
    ensures CounterOk(prices, es, c, now, d, Flipped(s, c, d, dc, now, faults))
  {
    hide Spent, EventCost, NextReset, PeriodStart;
    LastInstant(d, now);
    PeriodBounds(d, now);
    PeriodStartMonotone(d, dc.resetsAt - 1, now);
    assert FreeFrom(prices, es, c, PeriodStart(d, now));
    SpentNothing(prices, es, c, PeriodStart(d, now), NextReset(d, now));
  }

  /** Charging an event to a counter whose period is running. */
  lemma ChargeOk(prices: CostTable, a: seq<Event>, e: Event, b: seq<Event>, c: string, d: Dimension, dc: DimCounter)
    requires CounterOk(prices, a + b, c, e.at, d, dc) && e.at < dc.resetsAt && e.client == c
    ensures CounterOk(prices, a + [e] + b, c, e.at, d, dc.(used := dc.used + EventCost(prices, e)))
  {
    hide Spent, EventCost, NextReset, PeriodStart;
    var es, es' := a + b, a + [e] + b;
    SpentInsert(prices, a, e, b, c, PeriodStart(d, dc.resetsAt - 1), dc.resetsAt);
    InsertKeepsFree(prices, a, e, b, c, dc.resetsAt);
  }

  lemma InsertKeepsFree(prices: CostTable, a: seq<Event>, e: Event, b: seq<Event>, c: string, from: int)
    requires FreeFrom(prices, a + b, c, from)
    requires e.client != c || e.at < from || EventCost(prices, e) == 0.0
    ensures FreeFrom(prices, a + [e] + b, c, from)
  {
    hide EventCost;
    var es, es' := a + b, a + [e] + b;
    forall i | 0 <= i < |es'| && es'[i].client == c && es'[i].at >= from
      ensures EventCost(prices, es'[i]) == 0.0
    {
      if i < |a| {
        assert es'[i] == es[i];
      } else if i > |a| {
        assert es'[i] == es[i - 1];
      }
    }
  }

  /** An event that costs this client nothing leaves its counters right. */
  lemma FreeEventOk(prices: CostTable, a: seq<Event>, e: Event, b: seq<Event>, c: string, clock: nat, d: Dimension,
                    dc: DimCounter)
    requires CounterOk(prices, a + b, c, clock, d, dc) && clock <= e.at
    requires e.client != c || EventCost(prices, e) == 0.0
    ensures CounterOk(prices, a + [e] + b, c, e.at, d, dc)
  {
    hide Spent, EventCost, NextReset, PeriodStart;
    SpentInsert(prices, a, e, b, c, PeriodStart(d, dc.resetsAt - 1), dc.resetsAt);
    InsertKeepsFree(prices, a, e, b, c, dc.resetsAt);
  }

  // ---------------------------------------------------------------------------
  // Loading from the index

  lemma MidnightHour(day: nat)
    ensures HourStart(HourOf(Midnight(day))) == Midnight(day)
  {
  }

  /** Counters loaded from whole hours are right: period starts fall on hours, and the
      log has nothing past the clock. */
  lemma LoadedOk(prices: CostTable, es: seq<Event>, c: string, limits: Limits, now: nat, faults: Faults)
    requires LogUpTo(es, now)
    ensures CountersOk(prices, es, c, now, Loaded(prices, es, c, limits, now, faults))
  {
    hide Spent, NextReset, PeriodStart, EventCost, HourOf, HourStart;
    var dims := Loaded(prices, es, c, limits, now, faults);
    forall d | d in dims
      ensures CounterOk(prices, es, c, now, d, dims[d])
    {
      LoadedCounterOk(prices, es, c, now, d, dims[d]);
    }
  }

  lemma LoadedCounterOk(prices: CostTable, es: seq<Event>, c: string, now: nat, d: Dimension, dc: DimCounter)
    requires LogUpTo(es, now) && dc.resetsAt == NextReset(d, now)
    requires dc.used == HourSpent(prices, es, c, PeriodFrom(d, now), now)
    ensures CounterOk(prices, es, c, now, d, dc)
  {
    hide Spent, NextReset, PeriodStart, EventCost, HourOf, HourStart, Midnight;
    LastInstant(d, now);
    PeriodBounds(d, now);
    PeriodInDays(d, now);
    MidnightHour(StartDay(d, DayOf(now)));
    HourContains(now);
    SpentUntil(prices, es, c, now, PeriodStart(d, now), HourStart(HourOf(now) + 1), NextReset(d, now));
  }

  // ---------------------------------------------------------------------------
  // Steps

  datatype QuotaOp =
    | RecordAndIncrement(e: Event)
    | LoseAndIncrement(e: Event)
    | Evaluate(client: string)
    | Check(client: string)
    | Configure(client: string, limits: Option<Limits>)

  /** One step at `now`: the log only grows by recording, anywhere in its order. A request
      whose record the store refused is charged all the same. */
  ghost predicate Step(prices: CostTable, s: QuotaState, es: seq<Event>, op: QuotaOp, now: nat, faults: Faults,
                       s': QuotaState, es': seq<Event>) {
    match op
    case RecordAndIncrement(e) =>
      && e.at == now && (exists i :: 0 <= i <= |es| && es' == es[..i] + [e] + es[i..])
      && s' == IncrementStep(prices, s, es', e.client, EventCost(prices, e), now, faults)
    case LoseAndIncrement(e) =>
      e.at == now && es' == es && s' == IncrementStep(prices, s, es, e.client, EventCost(prices, e), now, faults)
    case Evaluate(client) => es' == es && s' == EvaluateStep(prices, s, es, client, now, faults)
    case Check(client) => es' == es && s' == CheckStep(s, client, now, faults).0
    case Configure(client, limits) =>
      es' == es && s' == s.(config := if limits.Some? then s.config[client := limits.value] else s.config - {client})
  }

  /** An operation that would unload the client. */
  predicate Unloads(s: QuotaState, op: QuotaOp, faults: Faults, c: string) {
    op == Evaluate(c) && !faults.list && !HasQuota(s, c)
  }

  /** A request of the client that cost something and is not in the log. */
  predicate LosesPaid(prices: CostTable, op: QuotaOp, c: string) {
    op.LoseAndIncrement? && op.e.client == c && EventCost(prices, op.e) > 0.0
  }

  lemma ChargeStepTracks(prices: CostTable, s: QuotaState, a: seq<Event>, e: Event, b: seq<Event>, clock: nat,
                         faults: Faults)
    requires Tracks(prices, s, a + b, e.client, clock) && LogUpTo(a + b, clock) && clock <= e.at
    ensures Tracks(prices, ChargeStep(s, e.client, EventCost(prices, e), e.at, faults), a + [e] + b, e.client, e.at)
  {
    hide Spent, NextReset, PeriodStart, EventCost, CounterOk;
    var dims := s.counters[e.client];
    var dims' := ChargeStep(s, e.client, EventCost(prices, e), e.at, faults).counters[e.client];
    forall d | d in dims'
      ensures CounterOk(prices, a + [e] + b, e.client, e.at, d, dims'[d])
    {
      FlippedOk(prices, s, a + b, e.client, clock, d, dims[d], e.at, faults);
      ChargeOk(prices, a, e, b, e.client, d, LazyFlip(s, e.client, d, dims[d], e.at, faults));
    }
  }

  lemma FlippedOk(prices: CostTable, s: QuotaState, es: seq<Event>, c: string, clock: nat, d: Dimension, dc: DimCounter,
                  now: nat, faults: Faults)
    requires CounterOk(prices, es, c, clock, d, dc) && LogUpTo(es, clock) && clock <= now
    ensures CounterOk(prices, es, c, now, d, LazyFlip(s, c, d, dc, now, faults))
         && now < LazyFlip(s, c, d, dc, now, faults).resetsAt
  {
    hide Spent, NextReset, PeriodStart, EventCost;
    PeriodBounds(d, now);
    if Expired(dc, now) {
      FlipOk(prices, s, es, c, clock, d, dc, now, faults);
    }
  }

  lemma RecordStepTracks(prices: CostTable, s: QuotaState, a: seq<Event>, e: Event, b: seq<Event>, c: string,
                         clock: nat, faults: Faults)
    requires Tracks(prices, s, a + b, c, clock) && LogUpTo(a + b, clock) && clock <= e.at
    ensures Tracks(prices, IncrementStep(prices, s, a + [e] + b, e.client, EventCost(prices, e), e.at, faults),
                   a + [e] + b, c, e.at)
  {
    hide Spent, NextReset, PeriodStart, EventCost, CounterOk, ChargeStep, EvaluateStep;
    EventCostNonNegative(prices, e);
    if e.client == c && EventCost(prices, e) > 0.0 {
      ChargeStepTracks(prices, s, a, e, b, clock, faults);
    } else {
      IncrementOthers(prices, s, a + [e] + b, e.client, EventCost(prices, e), e.at, faults, c);
      forall d | d in s.counters[c]
        ensures CounterOk(prices, a + [e] + b, c, e.at, d, s.counters[c][d])
      {
        FreeEventOk(prices, a, e, b, c, clock, d, s.counters[c][d]);
      }
    }
  }

  /** An increment touches its own client only, and no client when it costs nothing. */
  lemma IncrementOthers(prices: CostTable, s: QuotaState, es: seq<Event>, client: string, cost: real, now: nat,
                        faults: Faults, c: string)
    requires client != c || cost <= 0.0
    ensures var s' := IncrementStep(prices, s, es, client, cost, now, faults);
            && (c in s'.counters <==> c in s.counters) && (c in s.counters ==> s'.counters[c] == s.counters[c])
            && (c in s'.exceeded <==> c in s.exceeded) && (c in s.exceeded ==> s'.exceeded[c] == s.exceeded[c])
  {
    hide EvaluateStep, FirstOver, FlipAll, Charged, FromLimits;
    if client != c {
      EvaluateOthers(prices, s, es, client, now, faults, c);
    }
  }

  lemma CheckStepTracks(prices: CostTable, s: QuotaState, es: seq<Event>, client: string, c: string, clock: nat,
                        now: nat, faults: Faults)
    requires Tracks(prices, s, es, c, clock) && LogUpTo(es, clock) && clock <= now
    ensures Tracks(prices, CheckStep(s, client, now, faults).0, es, c, now)
  {
    hide Spent, NextReset, PeriodStart, EventCost, CounterOk;
    var s' := CheckStep(s, client, now, faults).0;
    forall d | d in s'.counters[c]
      ensures CounterOk(prices, es, c, now, d, s'.counters[c][d])
    {
      LaterOk(prices, es, c, clock, d, s.counters[c][d], now);
      if s'.counters[c][d] != s.counters[c][d] {
        FlipOk(prices, s, es, c, clock, d, s.counters[c][d], now, faults);
      }
    }
  }

  lemma LaterOk(prices: CostTable, es: seq<Event>, c: string, clock: nat, d: Dimension, dc: DimCounter, now: nat)
    requires CounterOk(prices, es, c, clock, d, dc) && clock <= now
    ensures CounterOk(prices, es, c, now, d, dc)
  {
  }

  /** After `Evaluate` a client with a limit is loaded, with counters that agree with
      the raw events. */
  lemma EvaluateTracks(prices: CostTable, s: QuotaState, es: seq<Event>, c: string, now: nat, faults: Faults)
    requires HasQuota(s, c) && LogUpTo(es, now) && !faults.list
    ensures Tracks(prices, EvaluateStep(prices, s, es, c, now, faults), es, c, now)
  {
    hide Loaded, CountersOk;
    LoadedOk(prices, es, c, s.config[c], now, faults);
  }

  lemma EvaluateOthers(prices: CostTable, s: QuotaState, es: seq<Event>, client: string, now: nat, faults: Faults,
                       c: string)
    requires client != c
    ensures var s' := EvaluateStep(prices, s, es, client, now, faults);
            && (c in s'.counters <==> c in s.counters) && (c in s.counters ==> s'.counters[c] == s.counters[c])
            && (c in s'.exceeded <==> c in s.exceeded) && (c in s.exceeded ==> s'.exceeded[c] == s.exceeded[c])
  {
    hide Loaded, FirstOver;
  }

  lemma StepTracks(prices: CostTable, s: QuotaState, es: seq<Event>, op: QuotaOp, now: nat, faults: Faults,
                   s': QuotaState, es': seq<Event>, c: string, clock: nat)
    requires Step(prices, s, es, op, now, faults, s', es') && Tracks(prices, s, es, c, clock) && LogUpTo(es, clock)
    requires clock <= now && !Unloads(s, op, faults, c) && !LosesPaid(prices, op, c)
    ensures Tracks(prices, s', es', c, now) && LogUpTo(es', now)
  {
    hide CounterOk, CountersOk, EvaluateStep, IncrementStep, CheckStep, EventCost;
    TracksLater(prices, s, es, c, clock, now);
    match op
    case RecordAndIncrement(e) =>
      var i :| 0 <= i <= |es| && es' == es[..i] + [e] + es[i..];
      assert es == es[..i] + es[i..];
      RecordStepTracks(prices, s, es[..i], e, es[i..], c, clock, faults);
    case LoseAndIncrement(e) => IncrementOthers(prices, s, es, e.client, EventCost(prices, e), now, faults, c);
    case Evaluate(client) =>
      if client == c {
        EvaluateAgainTracks(prices, s, es, c, now, faults);
      } else {
        EvaluateOthers(prices, s, es, client, now, faults, c);
      }
    case Check(client) => CheckStepTracks(prices, s, es, client, c, clock, now, faults);
    case Configure(client, limits) =>
  }

  lemma EvaluateAgainTracks(prices: CostTable, s: QuotaState, es: seq<Event>, c: string, now: nat, faults: Faults)
    requires Tracks(prices, s, es, c, now) && LogUpTo(es, now) && !Unloads(s, Evaluate(c), faults, c)
    ensures Tracks(prices, EvaluateStep(prices, s, es, c, now, faults), es, c, now)
  {
    hide CounterOk, CountersOk, Loaded;
    if !faults.list {
      EvaluateTracks(prices, s, es, c, now, faults);
    }
  }

  lemma TracksLater(prices: CostTable, s: QuotaState, es: seq<Event>, c: string, clock: nat, now: nat)
    requires Tracks(prices, s, es, c, clock) && clock <= now
    ensures Tracks(prices, s, es, c, now)
  {
  }

  // ---------------------------------------------------------------------------
  // Runs

  datatype Moment = Moment(state: QuotaState, log: seq<Event>)

  datatype Timed = Timed(op: QuotaOp, now: nat, faults: Faults)

  /** A run on a clock that never goes back. */
  ghost predicate IsRun(prices: CostTable, moments: seq<Moment>, ops: seq<Timed>, clock: nat) {
    && |moments| == |ops| + 1
    && (forall k :: 0 <= k < |ops| ==>
          Step(prices, moments[k].state, moments[k].log, ops[k].op, ops[k].now, ops[k].faults,
               moments[k + 1].state, moments[k + 1].log))
    && (forall k :: 0 <= k < |ops| ==> clock <= ops[k].now)
    && (forall j, k :: 0 <= j < k < |ops| ==> ops[j].now <= ops[k].now)
  }

  function ClockAt(ops: seq<Timed>, k: nat, clock: nat): nat
    requires k <= |ops|
  {
    if k == 0 then clock else ops[k - 1].now
  }

  /** Quota refinement: once a client is loaded, in every run of requests, evaluations,
      checks and configuration changes, with any failures of listings, refreshes and sums,
      that leaves it some limit whenever it is evaluated and loses no paid event of it,
      each of its counters equals the priced sum of its raw events inside the period that
      ends at the counter's reset, across any number of lazy flips. */
  lemma {:induction false} QuotaRefines(prices: CostTable, moments: seq<Moment>, ops: seq<Timed>, clock: nat,
                                        c: string, k: nat)
    requires IsRun(prices, moments, ops, clock) && k <= |ops|
    requires Tracks(prices, moments[0].state, moments[0].log, c, clock) && LogUpTo(moments[0].log, clock)
    requires forall j :: 0 <= j < k ==> !Unloads(moments[j].state, ops[j].op, ops[j].faults, c)
    requires forall j :: 0 <= j < k ==> !LosesPaid(prices, ops[j].op, c)
    ensures Tracks(prices, moments[k].state, moments[k].log, c, ClockAt(ops, k, clock))
    ensures LogUpTo(moments[k].log, ClockAt(ops, k, clock))
  {
    hide Step, Tracks;
    if k > 0 {
      QuotaRefines(prices, moments, ops, clock, c, k - 1);
      StepTracks(prices, moments[k - 1].state, moments[k - 1].log, ops[k - 1].op, ops[k - 1].now, ops[k - 1].faults,
                 moments[k].state, moments[k].log, c, ClockAt(ops, k - 1, clock));
    }
  }

  /** A request that is charged although its record was refused leaves every counter of a
      loaded client over the log by its price: wrong exactly when it cost something. */
  lemma LostEventDrifts(prices: CostTable, s: QuotaState, es: seq<Event>, e: Event, clock: nat, faults: Faults,
                        d: Dimension)
    requires Tracks(prices, s, es, e.client, clock) && LogUpTo(es, clock) && clock <= e.at && d in s.counters[e.client]
    ensures var s' := IncrementStep(prices, s, es, e.client, EventCost(prices, e), e.at, faults);
            && e.client in s'.counters && d in s'.counters[e.client]
            && var dc := s'.counters[e.client][d];
               CounterOk(prices, es, e.client, e.at, d, dc) <==> EventCost(prices, e) <= 0.0
  {
    hide Spent, NextReset, PeriodStart, EventCost;
    var dc := s.counters[e.client][d];
    FlippedOk(prices, s, es, e.client, clock, d, dc, e.at, faults);
    LaterOk(prices, es, e.client, clock, d, dc, e.at);
  }

  /** Without loaded counters a recorded request is counted twice: the index that the
      counters are loaded from already holds it. So the first charge to a client with a
      limit leaves every counter over the client's spending by the price of that request. */
  lemma UnloadedCountsTwice(prices: CostTable, s: QuotaState, es: seq<Event>, e: Event, faults: Faults, d: Dimension)
    requires e.client !in s.counters && HasQuota(s, e.client) && LogUpTo(es, e.at) && EventCost(prices, e) > 0.0
    requires LimitOf(s.config[e.client], d) > 0.0 && !faults.list && d !in faults.sums
    ensures var s' := IncrementStep(prices, s, es, e.client, EventCost(prices, e), e.at, faults);
            && e.client in s'.counters && d in s'.counters[e.client]
            && s'.counters[e.client][d].used
               == Spent(prices, es, e.client, PeriodStart(d, e.at), NextReset(d, e.at)) + EventCost(prices, e)
            && !CounterOk(prices, es, e.client, e.at, d, s'.counters[e.client][d])
  {
    hide Spent, NextReset, PeriodStart, EventCost, HourSpent, FromLimits, FirstOver, HasQuota;
    var c := e.client;
    var s1 := EvaluateStep(prices, s, es, c, e.at, faults);
    LoadedCounterOk(prices, es, c, e.at, d, s1.counters[c][d]);
    PeriodBounds(d, e.at);
    LastInstant(d, e.at);
  }

  /** With the listing of the evaluation failing and that of the fallback not, the counters
      start at the price of this one request: right exactly when it is all the client has
      spent in the period. */
  lemma FallbackForgets(prices: CostTable, s: QuotaState, es: seq<Event>, e: Event, faults: Faults, d: Dimension)
    requires e.client !in s.counters && HasQuota(s, e.client) && LogUpTo(es, e.at) && EventCost(prices, e) > 0.0
    requires LimitOf(s.config[e.client], d) > 0.0 && faults.list && !faults.reload
    ensures var s' := IncrementStep(prices, s, es, e.client, EventCost(prices, e), e.at, faults);
            && e.client in s'.counters && d in s'.counters[e.client]
            && var dc := s'.counters[e.client][d];
               && dc.used == EventCost(prices, e)
               && (CounterOk(prices, es, e.client, e.at, d, dc)
                   <==> Spent(prices, es, e.client, PeriodStart(d, e.at), NextReset(d, e.at)) == EventCost(prices, e))
  {
    hide Spent, NextReset, PeriodStart, EventCost;
    PeriodBounds(d, e.at);
    LastInstant(d, e.at);
  }

  // ---------------------------------------------------------------------------
  // The exceeded map

  /** Every entry is the first dimension over its limit among the client's live
      counters, with that counter's limit, usage and reset. */
  ghost predicate ExceededOk(s: QuotaState) {
    forall c :: c in s.exceeded ==> c in s.counters && FirstOver(s.counters[c]) == Some(s.exceeded[c])
  }

  /** What the first dimension over its limit is. */
  lemma FirstOverMeans(dims: Counters)
    ensures FirstOver(dims).Some? <==> exists d :: OverIn(dims, d)
    ensures FirstOver(dims).None? <==> forall d :: d in dims ==> dims[d].limit <= 0.0 || dims[d].used < dims[d].limit
    ensures FirstOver(dims).Some? ==>
      var info := FirstOver(dims).value;
      && OverIn(dims, info.dim) && InfoOf(info.dim, dims[info.dim]) == info
      && info.limit > 0.0 && info.used >= info.limit
      && (info.dim != Daily ==> !OverIn(dims, Daily))
      && (info.dim == Monthly ==> !OverIn(dims, Weekly))
  {
    if FirstOver(dims).None? {
      forall d: Dimension
        ensures !OverIn(dims, d)
        ensures d in dims ==> dims[d].limit <= 0.0 || dims[d].used < dims[d].limit
      {
        match d
        case Daily =>
        case Weekly =>
        case Monthly =>
      }
    } else {
      assert OverIn(dims, FirstOver(dims).value.dim);
    }
  }

  lemma WithExceededOk(s: QuotaState, c: string, dims: Counters)
    requires ExceededOk(s)
    ensures ExceededOk(s.(counters := s.counters[c := dims], exceeded := WithExceeded(s.exceeded, c, dims)))
  {
    hide FirstOver;
  }

  lemma EvaluateExceededOk(prices: CostTable, s: QuotaState, es: seq<Event>, c: string, now: nat, faults: Faults)
    requires ExceededOk(s)
    ensures ExceededOk(EvaluateStep(prices, s, es, c, now, faults))
  {
    hide FirstOver, Loaded, WithExceeded;
    if HasQuota(s, c) {
      WithExceededOk(s, c, Loaded(prices, es, c, s.config[c], now, faults));
    }
  }

  lemma IncrementExceededOk(prices: CostTable, s: QuotaState, es: seq<Event>, c: string, cost: real, now: nat,
                            faults: Faults)
    requires ExceededOk(s)
    ensures ExceededOk(IncrementStep(prices, s, es, c, cost, now, faults))
  {
    hide FirstOver, WithExceeded, FlipAll, Charged, EvaluateStep, FromLimits;
    EvaluateExceededOk(prices, s, es, c, now, faults);
    if cost > 0.0 {
      var s1 := if c in s.counters then s
        else FallbackStep(EvaluateStep(prices, s, es, c, now, faults), c, now, faults);
      if c in s1.counters {
        WithExceededOk(s1, c, Charged(FlipAll(s1, c, s1.counters[c], now, faults), cost));
      }
    }
  }

  lemma StepExceededOk(prices: CostTable, s: QuotaState, es: seq<Event>, op: QuotaOp, now: nat, faults: Faults,
                       s': QuotaState, es': seq<Event>)
    requires Step(prices, s, es, op, now, faults, s', es') && ExceededOk(s)
    ensures ExceededOk(s')
  {
    hide FirstOver, EventCost, EvaluateStep, IncrementStep;
    match op
    case RecordAndIncrement(e) => IncrementExceededOk(prices, s, es', e.client, EventCost(prices, e), now, faults);
    case LoseAndIncrement(e) => IncrementExceededOk(prices, s, es, e.client, EventCost(prices, e), now, faults);
    case Evaluate(client) => EvaluateExceededOk(prices, s, es, client, now, faults);
    case Check(client) =>
    case Configure(client, limits) =>
  }

  /** Exceeded-map soundness over every run. */
  lemma {:induction false} ExceededSound(prices: CostTable, moments: seq<Moment>, ops: seq<Timed>, clock: nat, k: nat)
    requires IsRun(prices, moments, ops, clock) && k <= |ops| && ExceededOk(moments[0].state)
    ensures ExceededOk(moments[k].state)
  {
    hide Step, ExceededOk;
    if k > 0 {
      ExceededSound(prices, moments, ops, clock, k - 1);
      StepExceededOk(prices, moments[k - 1].state, moments[k - 1].log, ops[k - 1].op, ops[k - 1].now, ops[k - 1].faults,
                     moments[k].state, moments[k].log);
    }
  }

  /** The entry exists exactly when some live counter is over. */
  ghost predicate InStep(s: QuotaState, c: string)
    requires c in s.counters
  {
    c in s.exceeded <==> exists d :: OverIn(s.counters[c], d)
  }

  /** Right after an evaluation of a client with a limit, and right after a request that
      cost something, the client's entry and its counters are in step. */
  lemma InStepAfterUpdate(prices: CostTable, s: QuotaState, es: seq<Event>, c: string, cost: real, now: nat,
                          faults: Faults)
    ensures HasQuota(s, c) && !faults.list ==>
      var s' := EvaluateStep(prices, s, es, c, now, faults); c in s'.counters && InStep(s', c)
    ensures var s' := IncrementStep(prices, s, es, c, cost, now, faults);
            cost > 0.0 && c in s'.counters ==> InStep(s', c)
  {
    hide FirstOver, Loaded, FlipAll, Charged, OverIn, FromLimits;
    var s1 := EvaluateStep(prices, s, es, c, now, faults);
    if HasQuota(s, c) && !faults.list {
      FirstOverMeans(s1.counters[c]);
    }
    var s2 := IncrementStep(prices, s, es, c, cost, now, faults);
    if c in s2.counters {
      FirstOverMeans(s2.counters[c]);
    }
  }
}

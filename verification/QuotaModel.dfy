/** Quota accounting for USD limits, as values: what each manager operation does to the
    counters and to the exceeded map. */
module QuotaModel {
  import opened Wrappers
  import opened Clock
  import opened Period
  import opened UsageIndex
  import opened Pricing

  /** Limits of one client; a limit that is not positive is no limit. */
  datatype Limits = Limits(daily: real, weekly: real, monthly: real)

  function LimitOf(l: Limits, dim: Dimension): real {
    match dim
    case Daily => l.daily
    case Weekly => l.weekly
    case Monthly => l.monthly
  }

  predicate HasLimits(l: Limits) { l.daily > 0.0 || l.weekly > 0.0 || l.monthly > 0.0 }

  datatype DimCounter = DimCounter(limit: real, used: real, resetsAt: Time)

  type Counters = map<Dimension, DimCounter>

  datatype ExceededInfo = ExceededInfo(dim: Dimension, limit: real, used: real, resetsAt: Time)

  datatype QuotaState = QuotaState(
    config: map<string, Limits>,
    counters: map<string, Counters>,
    exceeded: map<string, ExceededInfo>)

  /** What fails in the stores during one operation: the client listing of an evaluation
      and that of the fallback, the listing when a limit is refreshed, and the usage sum,
      these two dimension by dimension. */
  datatype Faults = Faults(list: bool, reload: bool, refresh: set<Dimension>, sums: set<Dimension>)

  const NO_FAULTS: Faults := Faults(false, false, {}, {})

  predicate HasQuota(s: QuotaState, client: string) { client in s.config && HasLimits(s.config[client]) }

  // ---------------------------------------------------------------------------
  // Money spent

  function EventCost(prices: CostTable, e: Event): real {
    RequestCost(prices, e.model, e.input, e.output, e.cached, e.cacheCreation)
  }

  /** What `client` spent in the span from `from` up to, not including, `until`. */
  function Spent(prices: CostTable, es: seq<Event>, client: string, from: int, until: int): real {
    if es == [] then 0.0
    else
      (if es[0].client == client && from <= es[0].at < until then EventCost(prices, es[0]) else 0.0)
      + Spent(prices, es[1..], client, from, until)
  }

  /** The span of whole hours from that of `from` to that of `to`. */
  function HourSpent(prices: CostTable, es: seq<Event>, client: string, from: nat, to: nat): real {
    Spent(prices, es, client, HourStart(HourOf(from)), HourStart(HourOf(to) + 1))
  }

  // ---------------------------------------------------------------------------
  // One dimension

  predicate Over(dc: DimCounter) { dc.limit > 0.0 && dc.used >= dc.limit }

  predicate Expired(dc: DimCounter, now: Time) { dc.resetsAt <= now }

  function RefreshedLimit(s: QuotaState, client: string, dim: Dimension, dc: DimCounter, faults: Faults): real {
    if dim !in faults.refresh && client in s.config then LimitOf(s.config[client], dim) else dc.limit
  }

  /** A counter whose period has passed starts the current one at zero. */
  function Flipped(s: QuotaState, client: string, dim: Dimension, dc: DimCounter, now: nat,
                   faults: Faults): DimCounter {
    DimCounter(RefreshedLimit(s, client, dim, dc, faults), 0.0, NextReset(dim, now))
  }

  function LazyFlip(s: QuotaState, client: string, dim: Dimension, dc: DimCounter, now: nat,
                    faults: Faults): DimCounter {
    if Expired(dc, now) then Flipped(s, client, dim, dc, now, faults) else dc
  }

  function FlipAll(s: QuotaState, client: string, dims: Counters, now: nat, faults: Faults): Counters {
    map d | d in dims :: LazyFlip(s, client, d, dims[d], now, faults)
  }

  function InfoOf(dim: Dimension, dc: DimCounter): ExceededInfo {
    ExceededInfo(dim, dc.limit, dc.used, dc.resetsAt)
  }

  predicate OverIn(dims: Counters, d: Dimension) { d in dims && Over(dims[d]) }

  /** The first dimension over its limit, in the order daily, weekly, monthly. */
  function FirstOver(dims: Counters): Option<ExceededInfo> {
    if OverIn(dims, Daily) then Some(InfoOf(Daily, dims[Daily]))
    else if OverIn(dims, Weekly) then Some(InfoOf(Weekly, dims[Weekly]))
    else if OverIn(dims, Monthly) then Some(InfoOf(Monthly, dims[Monthly]))
    else None
  }

  /** The exceeded map with the client's entry set to its first dimension over, or gone. */
  function WithExceeded(exceeded: map<string, ExceededInfo>, client: string,
                        dims: Counters): map<string, ExceededInfo> {
    match FirstOver(dims)
    case Some(info) => exceeded[client := info]
    case None => exceeded - {client}
  }

  // ---------------------------------------------------------------------------
  // Operations

  /** Counters from the index, for the dimensions with a limit whose sum is to be had. */
  function Loaded(prices: CostTable, es: seq<Event>, client: string, limits: Limits, now: nat,
                  faults: Faults): Counters {
    map d: Dimension | LimitOf(limits, d) > 0.0 && d !in faults.sums ::
      LoadedCounter(prices, es, client, limits, d, now)
  }

  function LoadedCounter(prices: CostTable, es: seq<Event>, client: string, limits: Limits, d: Dimension,
                         now: nat): DimCounter {
    DimCounter(LimitOf(limits, d), HourSpent(prices, es, client, PeriodFrom(d, now), now), NextReset(d, now))
  }

  function PeriodFrom(d: Dimension, now: nat): nat {
    PeriodBounds(d, now);
    PeriodStart(d, now)
  }

  /** `Evaluate`: a client that is gone or has no limit loses its state. Without the
      client listing nothing happens. */
  function EvaluateStep(prices: CostTable, s: QuotaState, es: seq<Event>, client: string, now: nat,
                        faults: Faults): QuotaState {
    if faults.list then s
    else if !HasQuota(s, client) then s.(counters := s.counters - {client}, exceeded := s.exceeded - {client})
    else
      var dims := Loaded(prices, es, client, s.config[client], now, faults);
      s.(counters := s.counters[client := dims], exceeded := WithExceeded(s.exceeded, client, dims))
  }

  function Charged(dims: Counters, cost: real): Counters {
    map d | d in dims :: dims[d].(used := dims[d].used + cost)
  }

  /** Flip, add and compare, for a client with counters. */
  function ChargeStep(s: QuotaState, client: string, cost: real, now: nat, faults: Faults): QuotaState
    requires client in s.counters
  {
    var dims := Charged(FlipAll(s, client, s.counters[client], now, faults), cost);
    s.(counters := s.counters[client := dims], exceeded := WithExceeded(s.exceeded, client, dims))
  }

  /** Counters at zero from the limits alone. */
  function FromLimits(limits: Limits, now: nat): Counters {
    map d: Dimension | LimitOf(limits, d) > 0.0 :: DimCounter(LimitOf(limits, d), 0.0, NextReset(d, now))
  }

  /** `loadCountersFromConfigLocked`, the fallback when an evaluation gave no counters. */
  function FallbackStep(s: QuotaState, client: string, now: nat, faults: Faults): QuotaState {
    if client in s.counters || faults.reload || !HasQuota(s, client) then s
    else s.(counters := s.counters[client := FromLimits(s.config[client], now)])
  }

  /** `Increment`: without counters it first loads them from the index, or failing that
      starts them at zero. */
  function IncrementStep(prices: CostTable, s: QuotaState, es: seq<Event>, client: string, cost: real, now: nat,
                         faults: Faults): QuotaState {
    if cost <= 0.0 then s
    else
      var s1 := if client in s.counters then s
                else FallbackStep(EvaluateStep(prices, s, es, client, now, faults), client, now, faults);
      if client in s1.counters then ChargeStep(s1, client, cost, now, faults) else s1
  }

  function Restarted(s: QuotaState, client: string, dims: Counters, resetsAt: Time, now: nat,
                     faults: Faults): Counters {
    map d | d in dims ::
      if dims[d].resetsAt == resetsAt || Expired(dims[d], now) then Flipped(s, client, d, dims[d], now, faults)
      else dims[d]
  }

  /** `Check`: a live entry is reported; an expired one is dropped, and the counters that
      share its reset or have passed their own start over. */
  function CheckStep(s: QuotaState, client: string, now: nat, faults: Faults): (QuotaState, Option<ExceededInfo>) {
    if client !in s.exceeded then (s, None)
    else
      var info := s.exceeded[client];
      if info.resetsAt > now then (s, Some(info))
      else
        var counters :=
          if client in s.counters then
            s.counters[client := Restarted(s, client, s.counters[client], info.resetsAt, now, faults)]
          else s.counters;
        (s.(counters := counters, exceeded := s.exceeded - {client}), None)
  }
}

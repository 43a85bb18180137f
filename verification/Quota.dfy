/** The quota manager: counters and exceeded entries in memory, loaded from the hourly
    index and moved on by each request. */
module Quota {
  import opened Wrappers
  import opened Clock
  import opened Period
  import ByteOrder
  import SortedRows
  import Text
  import HourKey
  import AggKey
  import opened UsageIndex
  import UsageStores
  import opened UsageQuery
  import Pricing
  import opened QuotaModel
  import opened UsageSums
  import QuotaRuns

  const DIMENSIONS: seq<Dimension> := [Daily, Weekly, Monthly]

  lemma DimensionsComplete(d: Dimension)
    ensures d in DIMENSIONS
  {
    match d
    case Daily => assert DIMENSIONS[0] == d;
    case Weekly => assert DIMENSIONS[1] == d;
    case Monthly => assert DIMENSIONS[2] == d;
  }

  // ---------------------------------------------------------------------------
  // From the index to money spent

  lemma {:induction false} RangeVisitHasRow(rows: seq<SortedRows.Row<Stored>>, from: nat, to: nat, i: nat)
    requires i < |RangeVisits(rows, from, to)|
    ensures exists k :: 0 <= k < |rows| && AggKey.ParseKey(rows[k].key) == Some(RangeVisits(rows, from, to)[i].cell)
    decreases |rows|
  {
    hide AggKey.ParseKey;
    var head := RangeVisit(rows[0], from, to);
    if i < |head| {
      assert AggKey.ParseKey(rows[0].key) == Some(head[i].cell);
    } else {
      RangeVisitHasRow(rows[1..], from, to, i - |head|);
      var k :| 0 <= k < |rows[1..]|
        && AggKey.ParseKey(rows[1..][k].key) == Some(RangeVisits(rows[1..], from, to)[i - |head|].cell);
      assert rows[1..][k] == rows[k + 1];
    }
  }

  /** No visited cell has a colon in its endpoint type: it comes from some event. */
  lemma VisitsHaveNoColon(rows: seq<SortedRows.Row<Stored>>, es: seq<Event>, from: nat, to: nat)
    requires SortedRows.Sorted(rows) && Agrees(rows, es) && AllAccountable(es)
    ensures var vs := RangeVisits(rows, from, to); forall i :: 0 <= i < |vs| ==> NoColon(vs[i].cell.endpointType)
  {
    hide AggKey.ParseKey, CellFor, Separable, EventKey, ByteOrder.Less, NoColon;
    hide Text.NormalName, Text.Trim, EventCellId;
    var vs := RangeVisits(rows, from, to);
    forall i | 0 <= i < |vs|
      ensures NoColon(vs[i].cell.endpointType)
    {
      RangeVisitHasRow(rows, from, to, i);
      var k :| 0 <= k < |rows| && AggKey.ParseKey(rows[k].key) == Some(vs[i].cell);
      SortedRows.GetAt(rows, k);
      assert SortedRows.Get(rows, rows[k].key) == ExpectedCell(es, rows[k].key);
      CellHasEvent(es, rows[k].key);
      var j :| 0 <= j < |es| && EventKey(es[j]) == rows[k].key;
      SeparableKey(es[j]);
      CellEndpoint(es[j]);
    }
  }

  lemma CellEndpoint(e: Event)
    ensures EventCellId(e).endpointType == Text.NormalName(e.endpointType)
  {
  }

  lemma AccountableSeparable(es: seq<Event>)
    requires AllAccountable(es)
    ensures AllSeparable(es)
  {
  }

  /** Grouped and priced, what the index holds for a client's period so far is what the
      client's events in it cost. */
  lemma IndexedUse(prices: Pricing.CostTable, rows: seq<SortedRows.Row<Stored>>, es: seq<Event>, client: string,
                   from: nat, now: nat)
    requires SortedRows.Sorted(rows) && Agrees(rows, es) && AllAccountable(es)
    requires from <= now && HourKey.FourDigitYear(HourOf(now)) && Text.Trim(client) == client
    ensures HourOf(from) <= HourOf(now)
    ensures GroupsCost(prices, GroupSums(Visits(rows, HourOf(from), HourOf(now)), client, HourOf(from), HourOf(now)))
         == HourSpent(prices, es, client, from, now)
  {
    hide AggKey.ParseKey, Agrees, Accountable, Spent, GroupsCost, GroupSums, Visits, RangeVisits, ByteOrder.Less;
    hide HourKey.YearOf;
    HoursInOrder(from, now);
    HourKey.YearMonotone(HourOf(from), HourOf(now));
    AccountableSeparable(es);
    IndexIsCanonical(rows, es);
    ScanIsRange(rows, HourOf(from), HourOf(now));
    VisitsHaveNoColon(rows, es, HourOf(from), HourOf(now));
    GroupingKeepsCost(prices, RangeVisits(rows, HourOf(from), HourOf(now)), client, HourOf(from), HourOf(now));
    IndexSpent(prices, rows, es, client, HourOf(from), HourOf(now));
  }

  /** What the promises about raw events rest on: the index agrees with them, and they
      can be told apart by their keys. */
  ghost predicate Trusted(store: UsageStores.UsageStore)
    reads store
  {
    store.Indexed() && AllAccountable(Decodable(store.events))
  }

  /** One counter per positive limit whose sum was to be had, running to the end of the
      current period. */
  ghost predicate LimitsTaken(dims: Counters, limits: Limits, now: nat, faults: Faults) {
    forall d :: (d in dims <==> LimitOf(limits, d) > 0.0 && d !in faults.sums)
      && (d in dims ==> dims[d].limit == LimitOf(limits, d) && dims[d].resetsAt == NextReset(d, now))
  }

  predicate InFourDigits(now: nat) { HourKey.FourDigitYear(HourOf(now)) }

  class Manager {
    const prices: Pricing.CostTable
    const store: UsageStores.UsageStore
    var config: map<string, Limits>
    var counters: map<string, Counters>
    var exceeded: map<string, ExceededInfo>

    constructor (prices: Pricing.CostTable, store: UsageStores.UsageStore, config: map<string, Limits>)
      ensures this.prices == prices && this.store == store && State() == QuotaState(config, map[], map[])
    {
      this.prices, this.store, this.config := prices, store, config;
      counters, exceeded := map[], map[];
    }

    function State(): QuotaState
      reads this
    {
      QuotaState(config, counters, exceeded)
    }

    /** One dimension from the index: sum by group, then price the groups. */
    method LoadDimension(client: string, dim: Dimension, limit: real, now: nat) returns (dc: DimCounter)
      requires store.Valid()
      ensures dc.limit == limit && dc.resetsAt == NextReset(dim, now)
      ensures Trusted(store) && InFourDigits(now) && Text.Trim(client) == client ==>
        dc.used == HourSpent(prices, Decodable(store.events), client, PeriodFrom(dim, now), now)
    {
      hide HourSpent, GroupsCost, Visits, Agrees, ByteOrder.Less, Decodable;
      hide NextReset, PeriodStart, HourOf, HourKey.FourDigitYear;
      PeriodBounds(dim, now);
      var from := PeriodStart(dim, now);
      HoursInOrder(from, now);
      var groups := SumByClientRange(store.cells, client, HourOf(from), HourOf(now));
      var used := PriceGroups(prices, groups);
      dc := DimCounter(limit, used, NextReset(dim, now));
      if Trusted(store) && InFourDigits(now) && Text.Trim(client) == client {
        IndexedUse(prices, store.cells, Decodable(store.events), client, from, now);
      }
    }

    method SetExceeded(client: string, dims: Counters)
      modifies this`exceeded
      ensures exceeded == WithExceeded(old(exceeded), client, dims)
    {
      exceeded := exceeded - {client};
      var i := 0;
      while i < |DIMENSIONS|
        invariant i <= |DIMENSIONS| && exceeded == old(exceeded) - {client}
        invariant forall k :: 0 <= k < i ==> !OverIn(dims, DIMENSIONS[k])
      {
        var d := DIMENSIONS[i];
        if d in dims && Over(dims[d]) {
          exceeded := exceeded[client := InfoOf(d, dims[d])];
          assert forall k :: 0 <= k < i ==> !OverIn(dims, DIMENSIONS[k]);
          FirstOverAt(dims, i);
          assert (old(exceeded) - {client})[client := InfoOf(d, dims[d])]
            == old(exceeded)[client := InfoOf(d, dims[d])];
          return;
        }
        i := i + 1;
      }
      NoneOver(dims);
    }

    /** The per-dimension loop of `Evaluate`; a dimension whose sum fails is left out. */
    method LoadCounters(client: string, limits: Limits, now: nat, faults: Faults) returns (dims: Counters)
      requires store.Valid()
      ensures LimitsTaken(dims, limits, now, faults)
      ensures Trusted(store) && InFourDigits(now) && Text.Trim(client) == client ==>
        dims == Loaded(prices, Decodable(store.events), client, limits, now, faults)
    {
      hide HourSpent, Trusted, Decodable, NextReset, InFourDigits, UsageStores.UsageStore.Valid;
      dims := map[];
      var i := 0;
      while i < |DIMENSIONS|
        invariant i <= |DIMENSIONS|
        invariant forall d :: d in dims <==> d in DIMENSIONS[..i] && LimitOf(limits, d) > 0.0 && d !in faults.sums
        invariant forall d :: d in dims ==> dims[d].limit == LimitOf(limits, d) && dims[d].resetsAt == NextReset(d, now)
        invariant Trusted(store) && InFourDigits(now) && Text.Trim(client) == client ==>
          forall d :: d in dims ==> dims[d] == LoadedCounter(prices, Decodable(store.events), client, limits, d, now)
      {
        var d := DIMENSIONS[i];
        if LimitOf(limits, d) > 0.0 && d !in faults.sums {
          var dc := LoadDimension(client, d, LimitOf(limits, d), now);
          dims := dims[d := dc];
        }
        i := i + 1;
      }
      forall d: Dimension
        ensures d in DIMENSIONS[..i]
      {
        DimensionsComplete(d);
      }
    }

    /** `Evaluate`: authoritative counters from the index. */
    method Evaluate(client: string, now: nat, faults: Faults)
      requires store.Valid()
      modifies this`counters, this`exceeded
      ensures faults.list ==> State() == old(State())
      ensures !faults.list ==> (HasQuota(State(), client) <==> client in counters)
      ensures !faults.list && client in counters ==>
        && counters == old(counters)[client := counters[client]]
        && exceeded == WithExceeded(old(exceeded), client, counters[client])
        && LimitsTaken(counters[client], config[client], now, faults)
      ensures !faults.list && client !in counters ==>
        counters == old(counters) - {client} && exceeded == old(exceeded) - {client}
      ensures Trusted(store) && InFourDigits(now) && Text.Trim(client) == client ==>
        State() == EvaluateStep(prices, old(State()), Decodable(store.events), client, now, faults)
    {
      hide Trusted, Decodable, InFourDigits, UsageStores.UsageStore.Valid, Loaded, FirstOver;
      if faults.list {
        return;
      }
      if client !in config || !HasLimits(config[client]) {
        counters, exceeded := counters - {client}, exceeded - {client};
        return;
      }
      var dims := LoadCounters(client, config[client], now, faults);
      SetExceeded(client, dims);
      counters := counters[client := dims];
    }

    /** `loadCountersFromConfigLocked`. */
    method FallBack(client: string, now: nat, faults: Faults)
      modifies this`counters
      ensures State() == FallbackStep(old(State()), client, now, faults)
    {
      hide NextReset;
      if client in counters || faults.reload || client !in config || !HasLimits(config[client]) {
        return;
      }
      var limits := config[client];
      var dims: Counters := map[];
      var i := 0;
      while i < |DIMENSIONS|
        invariant i <= |DIMENSIONS|
        invariant forall d :: d in dims <==> d in DIMENSIONS[..i] && LimitOf(limits, d) > 0.0
        invariant forall d :: d in dims ==> dims[d] == DimCounter(LimitOf(limits, d), 0.0, NextReset(d, now))
      {
        var d := DIMENSIONS[i];
        if LimitOf(limits, d) > 0.0 {
          dims := dims[d := DimCounter(LimitOf(limits, d), 0.0, NextReset(d, now))];
        }
        i := i + 1;
      }
      forall d: Dimension
        ensures d in DIMENSIONS[..i]
      {
        DimensionsComplete(d);
      }
      assert dims == FromLimits(limits, now);
      counters := counters[client := dims];
    }

    /** The per-dimension loop of `Increment`: flip what has passed, then add. */
    method ChargeDimensions(client: string, cost: real, now: nat, faults: Faults) returns (dims: Counters)
      requires client in counters
      ensures dims == Charged(FlipAll(State(), client, counters[client], now, faults), cost)
    {
      ghost var target := Charged(FlipAll(State(), client, counters[client], now, faults), cost);
      dims := counters[client];
      var i := 0;
      while i < |DIMENSIONS|
        invariant i <= |DIMENSIONS| && dims.Keys == target.Keys
        invariant forall d :: d in dims ==> dims[d] == if d in DIMENSIONS[..i] then target[d] else counters[client][d]
      {
        var d := DIMENSIONS[i];
        DimensionOnce(i);
        if d in dims {
          var dc := dims[d];
          if dc.resetsAt <= now {
            dc := DimCounter(RefreshedLimit(State(), client, d, dc, faults), 0.0, NextReset(d, now));
          }
          dims := dims[d := dc.(used := dc.used + cost)];
        }
        i := i + 1;
      }
      forall d: Dimension
        ensures d in DIMENSIONS[..i]
      {
        DimensionsComplete(d);
      }
    }

    /** `Increment`, for one finished request of the client. A client with counters is
        charged whatever the index holds. */
    method Increment(client: string, model: string, input: nat, output: nat, cached: nat, cacheCreation: nat,
                     now: nat, faults: Faults)
      requires store.Valid()
      modifies this`counters, this`exceeded
      ensures var cost := Pricing.RequestCost(prices, model, input, output, cached, cacheCreation);
              && (cost <= 0.0 ==> State() == old(State()))
              && (cost > 0.0 && client in old(counters) ==>
                State() == ChargeStep(old(State()), client, cost, now, faults))
      ensures Trusted(store) && InFourDigits(now) && Text.Trim(client) == client ==>
        State() == IncrementStep(prices, old(State()), Decodable(store.events), client,
                                 Pricing.RequestCost(prices, model, input, output, cached, cacheCreation), now, faults)
    {
      hide Trusted, Decodable, InFourDigits, UsageStores.UsageStore.Valid, EvaluateStep;
      hide FirstOver, FlipAll, Charged, Pricing.RequestCost, FromLimits;
      var cost := Pricing.RequestCost(prices, model, input, output, cached, cacheCreation);
      if cost <= 0.0 {
        return;
      }
      if client !in counters {
        Evaluate(client, now, faults);
        if client !in counters {
          FallBack(client, now, faults);
          if client !in counters {
            return;
          }
        }
      }
      var dims := ChargeDimensions(client, cost, now, faults);
      counters := counters[client := dims];
      SetExceeded(client, dims);
    }

    /** The per-dimension loop of `Check`: what shares the dropped entry's reset, or has
        passed its own, starts over. */
    method RestartDimensions(client: string, resetsAt: Time, now: nat, faults: Faults) returns (dims: Counters)
      requires client in counters
      ensures dims == Restarted(State(), client, counters[client], resetsAt, now, faults)
    {
      ghost var target := Restarted(State(), client, counters[client], resetsAt, now, faults);
      dims := counters[client];
      var i := 0;
      while i < |DIMENSIONS|
        invariant i <= |DIMENSIONS| && dims.Keys == target.Keys
        invariant forall d :: d in dims ==> dims[d] == if d in DIMENSIONS[..i] then target[d] else counters[client][d]
      {
        var d := DIMENSIONS[i];
        DimensionOnce(i);
        if d in dims && (dims[d].resetsAt == resetsAt || dims[d].resetsAt <= now) {
          dims := dims[d := DimCounter(RefreshedLimit(State(), client, d, dims[d], faults), 0.0, NextReset(d, now))];
        }
        i := i + 1;
      }
      forall d: Dimension
        ensures d in DIMENSIONS[..i]
      {
        DimensionsComplete(d);
      }
    }

    /** `Check`: the admission decision. */
    method Check(client: string, now: nat, faults: Faults) returns (info: Option<ExceededInfo>)
      modifies this`counters, this`exceeded
      ensures (State(), info) == CheckStep(old(State()), client, now, faults)
    {
      hide Restarted;
      if client !in exceeded {
        return None;
      }
      var found := exceeded[client];
      if found.resetsAt > now {
        return Some(found);
      }
      exceeded := exceeded - {client};
      if client in counters {
        RestartIgnoresExceeded(State(), old(State()), client, counters[client], found.resetsAt, now, faults);
        var dims := RestartDimensions(client, found.resetsAt, now, faults);
        counters := counters[client := dims];
      }
      return None;
    }

    /** `recordUsageEvent`: the event goes to the store, unless the store refuses it, and
        its price to the counters. */
    method RecordUsage(e: Event, rowKey: string, refused: bool, faults: Faults)
      requires store.Valid() && SortedRows.Get(store.events, rowKey) == None && InFourDigits(e.at)
      modifies this`counters, this`exceeded, store
      ensures store.Valid()
      ensures old(Trusted(store)) && Accountable(UsageStores.Normalized(e, e.at)) && Text.Trim(e.client) == e.client ==>
        && Trusted(store)
        && QuotaRuns.Step(prices, old(State()), old(Decodable(store.events)),
                if refused then QuotaRuns.LoseAndIncrement(UsageStores.Normalized(e, e.at))
                else QuotaRuns.RecordAndIncrement(UsageStores.Normalized(e, e.at)),
                e.at, faults, State(), Decodable(store.events))
    {
      hide InFourDigits, UsageStores.UsageStore.Valid, EvaluateStep, Accountable, Decodable;
      hide SortedRows.Get, IncrementStep, Bumped, Agrees, Text.NormalName;
      ghost var s0, es0 := State(), Decodable(store.events);
      ghost var e' := UsageStores.Normalized(e, e.at);
      ghost var a, b := es0, [];
      if !refused {
        a, b := store.Record(e, rowKey, e.at);
      }
      ghost var es := Decodable(store.events);
      Increment(e.client, e.model, e.input, e.output, e.cached, e.cacheCreation, e.at, faults);
      LookupNormalized(prices, e.model);
      if !refused && old(Trusted(store)) && Accountable(e') && Text.Trim(e.client) == e.client {
        ghost var before := a + b;
        AccountableInsert(a, e', b);
        assert before[..|a|] == a && before[|a|..] == b;
      }
    }
  }

  lemma RestartIgnoresExceeded(s: QuotaState, s': QuotaState, client: string, dims: Counters, resetsAt: Time, now: nat,
                               faults: Faults)
    requires s.config == s'.config
    ensures Restarted(s, client, dims, resetsAt, now, faults) == Restarted(s', client, dims, resetsAt, now, faults)
  {
  }

  /** The i-th dimension comes once in the list. */
  lemma DimensionOnce(i: nat)
    requires i < |DIMENSIONS|
    ensures DIMENSIONS[i] !in DIMENSIONS[..i] && DIMENSIONS[..i + 1] == DIMENSIONS[..i] + [DIMENSIONS[i]]
  {
  }

  lemma AccountableInsert(a: seq<Event>, e: Event, b: seq<Event>)
    requires AllAccountable(a + b) && Accountable(e)
    ensures AllAccountable(a + [e] + b)
  {
    hide Accountable;
    var es, es' := a + b, a + [e] + b;
    forall i | 0 <= i < |es'|
      ensures Accountable(es'[i])
    {
      if i < |a| {
        assert es'[i] == es[i];
      } else if i > |a| {
        assert es'[i] == es[i - 1];
      }
    }
  }

  lemma FirstOverAt(dims: Counters, i: nat)
    requires i < |DIMENSIONS| && OverIn(dims, DIMENSIONS[i])
    requires forall k :: 0 <= k < i ==> !OverIn(dims, DIMENSIONS[k])
    ensures FirstOver(dims) == Some(InfoOf(DIMENSIONS[i], dims[DIMENSIONS[i]]))
  {
    if i > 0 {
      assert !OverIn(dims, DIMENSIONS[0]);
    }
    if i > 1 {
      assert !OverIn(dims, DIMENSIONS[1]);
    }
  }

  lemma NoneOver(dims: Counters)
    requires forall k :: 0 <= k < |DIMENSIONS| ==> !OverIn(dims, DIMENSIONS[k])
    ensures FirstOver(dims) == None
  {
    assert !OverIn(dims, DIMENSIONS[0]) && !OverIn(dims, DIMENSIONS[1]) && !OverIn(dims, DIMENSIONS[2]);
  }
}

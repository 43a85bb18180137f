/** What counts and reports over the hourly index say about the raw events behind it, in the
    events' own fields. */
module ReportEvents {
  import opened Wrappers
  import opened Clock
  import opened Text
  import opened ByteOrder
  import SortedRows
  import HourKey
  import Modular
  import opened AggKey
  import opened UsageIndex
  import opened UsageQuery
  import opened Pricing
  import opened UsageTotals
  import opened Breakdowns
  import opened UsageReports

  type Keep = Event -> bool

  function SumOver(es: seq<Event>, keep: Keep, value: Event -> real): real {
    if es == [] then 0.0 else (if keep(es[0]) then value(es[0]) else 0.0) + SumOver(es[1..], keep, value)
  }

  /** Each number is the sum of that number over the kept events; an event is priced on its
      own, under the name its cell has. */
  ghost predicate TotalsOf(t: Totals, es: seq<Event>, keep: Keep, table: CostTable) {
    && t.requests as real == SumOver(es, keep, e => 1.0)
    && t.input as real == SumOver(es, keep, (e: Event) => e.input as real)
    && t.output as real == SumOver(es, keep, (e: Event) => e.output as real)
    && t.cached as real == SumOver(es, keep, (e: Event) => e.cached as real)
    && t.cacheCreation as real == SumOver(es, keep, (e: Event) => e.cacheCreation as real)
    && t.cost == SumOver(es, keep, e => NamedCost(table, e))
  }

  /** The price of the event's tokens under its normalised model name, or under "unknown". */
  function NamedCost(table: CostTable, e: Event): real {
    RequestCost(table, if NormalName(e.model) == "" then "unknown" else NormalName(e.model), e.input, e.output,
                e.cached, e.cacheCreation)
  }

  lemma CellCostOf(table: CostTable, e: Event)
    ensures CellTotals(table, EventCellId(e), EventCell(e))
         == Totals(1, e.input, e.output, e.cached, e.cacheCreation, NamedCost(table, e))
  {
    hide NormalName, Trim, HourOf;
  }

  lemma {:induction false} TotalsAreSums(es: seq<Event>, table: CostTable, from: nat, to: nat, sel: Selector,
                                        keep: Keep)
    requires forall e: Event :: SelectedIn(e, from, to, sel) <==> keep(e)
    ensures TotalsOf(EventTotals(es, table, from, to, sel), es, keep, table)
  {
    hide CellTotals, EventCellId, EventCell, HourOf, NamedCost;
    if es != [] {
      TotalsAreSums(es[1..], table, from, to, sel, keep);
      CellCostOf(table, es[0]);
      CellHour(es[0]);
    }
  }

  lemma CellHour(e: Event)
    ensures EventCellId(e).hour == HourOf(e.at)
  {
  }

  // ---------------------------------------------------------------------------
  // Counts

  /** `Count` counts the requests of the whole hours from `from` to `to`, and those with a
      status from 1 to 499. */
  lemma {:induction false} CountsAreSums(es: seq<Event>, from: nat, to: nat, keep: Keep, good: Keep)
    requires forall e: Event :: keep(e) <==> HourStart(from) <= e.at < HourStart(to + 1)
    requires forall e: Event :: good(e) <==> keep(e) && 1 <= e.status <= 499
    ensures EventCount(es, from, to) as real == SumOver(es, keep, e => 1.0)
    ensures SuccessCount(es, from, to) as real == SumOver(es, good, e => 1.0)
  {
    if es != [] {
      CountsAreSums(es[1..], from, to, keep, good);
      WithinHours(es[0].at, from, to);
    }
  }

  lemma WithinHours(at: nat, from: nat, to: nat)
    ensures from <= HourOf(at) <= to <==> HourStart(from) <= at < HourStart(to + 1)
  {
  }

  // ---------------------------------------------------------------------------
  // Reports

  /** The event lies in the whole hours of the filter, which end an hour from now by default,
      and has the client and the model the filter asks for, if any. */
  predicate InFilter(e: Event, filter: Filter, now: nat) {
    && HourStart(HourOf(FromOf(filter))) <= e.at < HourStart(HourOf(ToOf(filter, now)) + 1)
    && (Trim(filter.client) == "" || OrUnknown(Trim(e.client)) == Trim(filter.client))
    && (NormalName(filter.model) == "" || OrUnknown(NormalName(e.model)) == NormalName(filter.model))
  }

  function FilterOf(filter: Filter): Selector { FilterSelector(Trim(filter.client), NormalName(filter.model)) }

  lemma FilterMeans(e: Event, filter: Filter, now: nat)
    ensures SelectedIn(e, HourOf(FromOf(filter)), HourOf(ToOf(filter, now)), FilterOf(filter))
       <==> InFilter(e, filter, now)
  {
    hide NormalName, Trim, HourOf, HourStart;
    WithinHours(e.at, HourOf(FromOf(filter)), HourOf(ToOf(filter, now)));
  }

  /** The nanoseconds of an hour, or of a day. */
  function Step(byHour: bool): int { if byHour then 3_600_000_000_000 else 86_400_000_000_000 }

  /** A bucket starts at a whole hour or day and holds just the events of that hour or day. */
  lemma BucketHolds(byHour: bool, e: Event)
    ensures var start := BucketOf(byHour)(EventCellId(e));
            start % Step(byHour) == 0 && start <= e.at < start + Step(byHour)
  {
    hide NormalName, Trim;
    if !byHour {
      DayOfHour(e.at);
    }
  }

  lemma DayOfHour(at: nat)
    ensures HourOf(at) / 24 == DayOf(at)
  {
  }

  lemma SameBucket(byHour: bool, e: Event, start: Time)
    requires start % Step(byHour) == 0
    ensures BucketOf(byHour)(EventCellId(e)) == start <==> start <= e.at < start + Step(byHour)
  {
    hide BucketOf, EventCellId;
    BucketHolds(byHour, e);
    if start <= e.at < start + Step(byHour) {
      OneMultiple(start, BucketOf(byHour)(EventCellId(e)), Step(byHour), e.at);
    }
  }

  lemma OneMultiple(a: int, b: int, step: int, at: int)
    requires step > 0 && a % step == 0 && b % step == 0 && a <= at < a + step && b <= at < b + step
    ensures a == b
  {
    Modular.QuotientIs(at, a / step, step, at - a);
    Modular.QuotientIs(at, b / step, step, at - b);
  }

  lemma CellBucketAligned(byHour: bool, cell: Cell)
    ensures BucketOf(byHour)(cell) % Step(byHour) == 0
  {
  }

  /** The part of a breakdown is the total of a narrower selection. */
  lemma {:induction false} PartIsTotal<K>(visits: seq<Visit>, table: CostTable, sel: Selector, keyOf: Cell -> K, key: K,
                                          narrow: Selector)
    requires forall cell :: narrow(cell) <==> sel(cell) && keyOf(cell) == key
    ensures TotalAt(visits, table, sel, keyOf, key) == Total(visits, table, narrow)
  {
    hide AddVisit;
    if visits != [] {
      PartIsTotal(visits[..|visits| - 1], table, sel, keyOf, key, narrow);
    }
  }

  /** The part of the breakdown of an agreeing index under `key`: the sums over the events
      kept by the filter whose cell has that key. */
  lemma PartMeansEvents<K>(rows: seq<SortedRows.Row<Stored>>, es: seq<Event>, filter: Filter, table: CostTable,
                           now: nat, keyOf: Cell -> K, key: K, keep: Keep)
    requires SortedRows.Sorted(rows) && Agrees(rows, es) && AllSeparable(es)
    requires HourKey.FourDigitYear(HourOf(FromOf(filter))) && HourKey.FourDigitYear(HourOf(ToOf(filter, now)))
    requires forall e: Event :: keep(e) <==> InFilter(e, filter, now) && keyOf(EventCellId(e)) == key
    ensures TotalsOf(TotalAt(Visits(rows, HourOf(FromOf(filter)), HourOf(ToOf(filter, now))), table, FilterOf(filter),
                             keyOf, key), es, keep, table)
  {
    hide Agrees, AllSeparable, Visits, HourKey.YearOf, TotalsOf, InFilter, FilterOf, EventTotals, HourOf, EventCellId;
    var from, to, sel := HourOf(FromOf(filter)), HourOf(ToOf(filter, now)), FilterOf(filter);
    var narrow := (cell: Cell) => sel(cell) && keyOf(cell) == key;
    PartIsTotal(Visits(rows, from, to), table, sel, keyOf, key, narrow);
    TotalsMeanEvents(rows, es, table, from, to, narrow);
    forall e: Event
      ensures SelectedIn(e, from, to, narrow) <==> keep(e)
    {
      FilterMeans(e, filter, now);
    }
    TotalsAreSums(es, table, from, to, narrow, keep);
  }

  /** What each part of a report holds: the events of the filter, those of a bucket's own
      hour or day, those of a client, those of a model. */
  ghost predicate MeansEvents(r: Report, es: seq<Event>, filter: Filter, table: CostTable, now: nat) {
    && TotalsOf(r.totals, es, e => InFilter(e, filter, now), table)
    && (forall i :: 0 <= i < |r.buckets| ==> BucketMeans(r.buckets[i], r.byHour, es, filter, table, now))
    && (forall i :: 0 <= i < |r.byClient| ==> ClientMeans(r.byClient[i], es, filter, table, now))
    && (forall i :: 0 <= i < |r.byModel| ==> ModelMeans(r.byModel[i], es, filter, table, now))
  }

  ghost predicate BucketMeans(b: Bucket, byHour: bool, es: seq<Event>, filter: Filter, table: CostTable, now: nat) {
    && b.start % Step(byHour) == 0 && b.end == b.start + Step(byHour)
    && TotalsOf(b.totals, es, e => InFilter(e, filter, now) && b.start <= e.at < b.end, table)
  }

  ghost predicate ClientMeans(d: DimensionTotals<string>, es: seq<Event>, filter: Filter, table: CostTable, now: nat) {
    TotalsOf(d.totals, es, e => InFilter(e, filter, now) && OrUnknown(Trim(e.client)) == d.key, table)
  }

  ghost predicate ModelMeans(d: DimensionTotals<string>, es: seq<Event>, filter: Filter, table: CostTable, now: nat) {
    TotalsOf(d.totals, es, e => InFilter(e, filter, now) && OrUnknown(NormalName(e.model)) == d.key, table)
  }

  /** A report over an agreeing index, part by part in terms of the raw events. */
  lemma ReportMeansEvents(r: Report, rows: seq<SortedRows.Row<Stored>>, es: seq<Event>, filter: Filter,
                          table: CostTable, now: nat)
    requires SortedRows.Sorted(rows) && Agrees(rows, es) && AllSeparable(es)
    requires HourKey.FourDigitYear(HourOf(FromOf(filter))) && HourKey.FourDigitYear(HourOf(ToOf(filter, now)))
    requires Reports(r, Visits(rows, HourOf(FromOf(filter)), HourOf(ToOf(filter, now))), table, FilterOf(filter))
    ensures MeansEvents(r, es, filter, table, now)
  {
    hide Agrees, AllSeparable, Visits, HourKey.YearOf, HourOf, FilterOf, BucketMeans, ClientMeans, ModelMeans, Reports;
    hide TotalsOf;
    TotalMeans(r, rows, es, filter, table, now);
    forall i | 0 <= i < |r.buckets|
      ensures BucketMeans(r.buckets[i], r.byHour, es, filter, table, now)
    {
      BucketPart(r, rows, es, filter, table, now, i);
    }
    forall i | 0 <= i < |r.byClient|
      ensures ClientMeans(r.byClient[i], es, filter, table, now)
    {
      ClientPart(r, rows, es, filter, table, now, i);
    }
    forall i | 0 <= i < |r.byModel|
      ensures ModelMeans(r.byModel[i], es, filter, table, now)
    {
      ModelPart(r, rows, es, filter, table, now, i);
    }
  }

  lemma TotalMeans(r: Report, rows: seq<SortedRows.Row<Stored>>, es: seq<Event>, filter: Filter, table: CostTable,
                   now: nat)
    requires SortedRows.Sorted(rows) && Agrees(rows, es) && AllSeparable(es)
    requires HourKey.FourDigitYear(HourOf(FromOf(filter))) && HourKey.FourDigitYear(HourOf(ToOf(filter, now)))
    requires Reports(r, Visits(rows, HourOf(FromOf(filter)), HourOf(ToOf(filter, now))), table, FilterOf(filter))
    ensures TotalsOf(r.totals, es, e => InFilter(e, filter, now), table)
  {
    hide Agrees, AllSeparable, Visits, HourKey.YearOf, HourOf, FilterOf, TotalsOf, InFilter, Breakdown, EventTotals;
    var from, to, sel := HourOf(FromOf(filter)), HourOf(ToOf(filter, now)), FilterOf(filter);
    TotalsMeanEvents(rows, es, table, from, to, sel);
    forall e: Event
      ensures SelectedIn(e, from, to, sel) <==> InFilter(e, filter, now)
    {
      FilterMeans(e, filter, now);
    }
    TotalsAreSums(es, table, from, to, sel, e => InFilter(e, filter, now));
  }

  lemma BucketPart(r: Report, rows: seq<SortedRows.Row<Stored>>, es: seq<Event>, filter: Filter, table: CostTable,
                   now: nat, i: nat)
    requires SortedRows.Sorted(rows) && Agrees(rows, es) && AllSeparable(es)
    requires HourKey.FourDigitYear(HourOf(FromOf(filter))) && HourKey.FourDigitYear(HourOf(ToOf(filter, now)))
    requires Reports(r, Visits(rows, HourOf(FromOf(filter)), HourOf(ToOf(filter, now))), table, FilterOf(filter))
    requires i < |r.buckets|
    ensures BucketMeans(r.buckets[i], r.byHour, es, filter, table, now)
  {
    hide Agrees, AllSeparable, Visits, HourKey.YearOf, HourOf, FilterOf, TotalsOf, InFilter, TotalAt, BucketOf;
    hide EventCellId, Total;
    var visits := Visits(rows, HourOf(FromOf(filter)), HourOf(ToOf(filter, now)));
    var b := r.buckets[i];
    assert ByStart(r.buckets)[i].key == b.start;
    assert HasKey(ByStart(r.buckets), b.start);
    assert Seen(visits, FilterOf(filter), BucketOf(r.byHour), b.start);
    var j :| 0 <= j < |visits| && BucketOf(r.byHour)(visits[j].cell) == b.start;
    CellBucketAligned(r.byHour, visits[j].cell);
    var keep := (e: Event) => InFilter(e, filter, now) && b.start <= e.at < b.end;
    forall e: Event
      ensures keep(e) <==> InFilter(e, filter, now) && BucketOf(r.byHour)(EventCellId(e)) == b.start
    {
      SameBucket(r.byHour, e, b.start);
    }
    PartMeansEvents(rows, es, filter, table, now, BucketOf(r.byHour), b.start, keep);
  }

  lemma ClientPart(r: Report, rows: seq<SortedRows.Row<Stored>>, es: seq<Event>, filter: Filter, table: CostTable,
                   now: nat, i: nat)
    requires SortedRows.Sorted(rows) && Agrees(rows, es) && AllSeparable(es)
    requires HourKey.FourDigitYear(HourOf(FromOf(filter))) && HourKey.FourDigitYear(HourOf(ToOf(filter, now)))
    requires Reports(r, Visits(rows, HourOf(FromOf(filter)), HourOf(ToOf(filter, now))), table, FilterOf(filter))
    requires i < |r.byClient|
    ensures ClientMeans(r.byClient[i], es, filter, table, now)
  {
    hide Agrees, AllSeparable, Visits, HourKey.YearOf, HourOf, FilterOf, TotalsOf, InFilter, TotalAt, BucketOf;
    hide Total, Trim, NormalName;
    var d := r.byClient[i];
    var keep := (e: Event) => InFilter(e, filter, now) && OrUnknown(Trim(e.client)) == d.key;
    PartMeansEvents(rows, es, filter, table, now, ClientOf, d.key, keep);
  }

  lemma ModelPart(r: Report, rows: seq<SortedRows.Row<Stored>>, es: seq<Event>, filter: Filter, table: CostTable,
                  now: nat, i: nat)
    requires SortedRows.Sorted(rows) && Agrees(rows, es) && AllSeparable(es)
    requires HourKey.FourDigitYear(HourOf(FromOf(filter))) && HourKey.FourDigitYear(HourOf(ToOf(filter, now)))
    requires Reports(r, Visits(rows, HourOf(FromOf(filter)), HourOf(ToOf(filter, now))), table, FilterOf(filter))
    requires i < |r.byModel|
    ensures ModelMeans(r.byModel[i], es, filter, table, now)
  {
    hide Agrees, AllSeparable, Visits, HourKey.YearOf, HourOf, FilterOf, TotalsOf, InFilter, TotalAt, BucketOf;
    hide Total, Trim, NormalName;
    var d := r.byModel[i];
    var keep := (e: Event) => InFilter(e, filter, now) && OrUnknown(NormalName(e.model)) == d.key;
    PartMeansEvents(rows, es, filter, table, now, ModelOf, d.key, keep);
  }

  // ---------------------------------------------------------------------------
  // The windows of the summary

  /** The sum over a span of instants is that of the events' own numbers. */
  lemma {:induction false} BetweenAreSums(es: seq<Event>, table: CostTable, from: int, until: int, keep: Keep)
    requires forall e: Event :: keep(e) <==> from <= e.at < until
    ensures TotalsOf(TotalsBetween(es, table, from, until), es, keep, table)
  {
    hide CellTotals, EventCellId, EventCell, NamedCost;
    if es != [] {
      BetweenAreSums(es[1..], table, from, until, keep);
      CellCostOf(table, es[0]);
    }
  }

  /** The first whole hour at or after an instant. */
  lemma HourFromMeans(t: nat)
    ensures HourFrom(t) % Step(true) == 0 && t <= HourFrom(t) < t + Step(true)
  {
  }
}

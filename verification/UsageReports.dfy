/** The reports served from the hourly index: counts, the filtered breakdown by bucket,
    client and model, and the windows of the summary. */
module UsageReports {
  import opened Wrappers
  import opened Clock
  import opened ByteOrder
  import SortedRows
  import Text
  import HourKey
  import opened AggKey
  import opened UsageIndex
  import opened UsageQuery
  import opened Pricing
  import opened UsageTotals
  import opened Breakdowns

  const DAY: int := 86_400_000_000_000

  // ---------------------------------------------------------------------------
  // Count

  function Requests(cell: Cell, c: AggCell): real { c.requests as real }

  function Successes(cell: Cell, c: AggCell): real { c.success as real }

  /** `Count`. */
  method Count(rows: seq<SortedRows.Row<Stored>>, from: nat, to: nat) returns (total: nat, success: nat)
    requires SortedRows.Sorted(rows)
    ensures total as real == Weigh(Visits(rows, HourOf(from), HourOf(to)), Requests)
    ensures success as real == Weigh(Visits(rows, HourOf(from), HourOf(to)), Successes)
  {
    var visits := AggIter(rows, HourOf(from), HourOf(to));
    total, success := 0, 0;
    for i := 0 to |visits|
      invariant total as real == Weigh(visits[..i], Requests) && success as real == Weigh(visits[..i], Successes)
    {
      assert visits[..i + 1][..i] == visits[..i];
      total := total + visits[i].value.requests;
      success := success + visits[i].value.success;
    }
    assert visits[..|visits|] == visits;
  }

  function EventCount(es: seq<Event>, from: nat, to: nat): nat {
    if es == [] then 0 else (if from <= HourOf(es[0].at) <= to then 1 else 0) + EventCount(es[1..], from, to)
  }

  function SuccessCount(es: seq<Event>, from: nat, to: nat): nat {
    if es == [] then 0
    else
      (if from <= HourOf(es[0].at) <= to && IsSuccessStatus(es[0].status) then 1 else 0)
      + SuccessCount(es[1..], from, to)
  }

  lemma {:induction false} CountsWeigh(es: seq<Event>, from: nat, to: nat)
    ensures WeighEvents(es, from, to, Requests) == EventCount(es, from, to) as real
    ensures WeighEvents(es, from, to, Successes) == SuccessCount(es, from, to) as real
  {
    hide HourOf, EventCellId;
    if es != [] {
      CountsWeigh(es[1..], from, to);
    }
  }

  /** `Count` over an agreeing index is a count of the raw events in the same whole hours:
      all of them, and those that did not fail. */
  lemma CountMeansEvents(rows: seq<SortedRows.Row<Stored>>, es: seq<Event>, from: nat, to: nat)
    requires SortedRows.Sorted(rows) && Agrees(rows, es) && AllSeparable(es)
    requires HourKey.FourDigitYear(from) && HourKey.FourDigitYear(to)
    ensures Weigh(Visits(rows, from, to), Requests) == EventCount(es, from, to) as real
    ensures Weigh(Visits(rows, from, to), Successes) == SuccessCount(es, from, to) as real
  {
    hide Agrees, AllSeparable, HourKey.FourDigitYear;
    VisitsMeanEvents(rows, es, from, to, Requests);
    VisitsMeanEvents(rows, es, from, to, Successes);
    CountsWeigh(es, from, to);
  }

  // ---------------------------------------------------------------------------
  // Aggregate

  datatype Bucket = Bucket(start: Time, end: Time, totals: Totals)

  datatype Report = Report(byHour: bool, totals: Totals, buckets: seq<Bucket>,
                           byClient: seq<DimensionTotals<string>>, byModel: seq<DimensionTotals<string>>)

  datatype Filter = Filter(from: Option<nat>, to: Option<nat>, client: string, model: string)

  /** `usageNormalizeGroupBy`: anything but "hour" groups by day. */
  predicate GroupsByHour(groupBy: string) { Text.NormalName(groupBy) == "hour" }

  /** The cells a filter lets through; an empty name lets all through. */
  function FilterSelector(client: string, model: string): Selector {
    (cell: Cell) => (client == "" || cell.client == client) && (model == "" || cell.model == model)
  }

  function HourBucket(cell: Cell): Time { HourStart(cell.hour) }

  function DayBucket(cell: Cell): Time { Midnight(cell.hour / 24) }

  /** `bucketStartFromHour`. */
  function BucketOf(byHour: bool): Cell -> Time { if byHour then HourBucket else DayBucket }

  /** `usageStepDuration`. */
  function StepOf(byHour: bool): int { if byHour then HOUR else DAY }

  function ClientOf(cell: Cell): string { OrUnknown(cell.client) }

  function ModelOf(cell: Cell): string { OrUnknown(cell.model) }

  predicate Earlier(a: Time, b: Time) { a < b }

  lemma TimesOrdered()
    ensures StrictOrder(Earlier)
  {
  }

  lemma NamesOrdered()
    ensures StrictOrder(Less)
  {
    forall a
      ensures !Less(a, a)
    {
      LessIrreflexive(a);
    }
    forall a, b, c | Less(a, b) && Less(b, c)
      ensures Less(a, c)
    {
      LessTransitive(a, b, c);
    }
    forall a, b
      ensures Less(a, b) || Less(b, a) || a == b
    {
      LessTotal(a, b);
    }
  }

  /** The buckets as a listing by start. */
  function ByStart(buckets: seq<Bucket>): seq<DimensionTotals<Time>> {
    seq(|buckets|, i requires 0 <= i < |buckets| => DimensionTotals(buckets[i].start, buckets[i].totals))
  }

  /** What a report says about the visits of its scan: the whole, and three breakdowns of
      it, the buckets in strict order of time and each of the length asked for. */
  ghost predicate Reports(r: Report, visits: seq<Visit>, table: CostTable, sel: Selector) {
    && r.totals == Total(visits, table, sel)
    && Breakdown(ByStart(r.buckets), visits, table, sel, BucketOf(r.byHour), Earlier)
    && (forall i :: 0 <= i < |r.buckets| ==> r.buckets[i].end == r.buckets[i].start + StepOf(r.byHour))
    && Breakdown(r.byClient, visits, table, sel, ClientOf, Less)
    && Breakdown(r.byModel, visits, table, sel, ModelOf, Less)
  }

  /** Conservation: buckets, clients and models each add up to the totals, in every
      counter and in exact cost. */
  lemma ReportConserves(r: Report, visits: seq<Visit>, table: CostTable, sel: Selector)
    requires Reports(r, visits, table, sel)
    ensures SumOf(ByStart(r.buckets)) == r.totals && SumOf(r.byClient) == r.totals && SumOf(r.byModel) == r.totals
  {
    hide Breakdown, Total;
    TimesOrdered();
    NamesOrdered();
    hide StrictOrder;
    BreakdownConserves(ByStart(r.buckets), visits, table, sel, BucketOf(r.byHour), Earlier);
    BreakdownConserves(r.byClient, visits, table, sel, ClientOf, Less);
    BreakdownConserves(r.byModel, visits, table, sel, ModelOf, Less);
  }

  /** The range a filter scans: from the zero time and to one hour ahead by default. */
  function FromOf(filter: Filter): nat { if filter.from.Some? then filter.from.value else 0 }

  function ToOf(filter: Filter, now: nat): nat { if filter.to.Some? then filter.to.value else now + HOUR }

  /** `Aggregate`. */
  method Aggregate(rows: seq<SortedRows.Row<Stored>>, filter: Filter, groupBy: string, table: CostTable, now: nat)
    returns (report: Report)
    requires SortedRows.Sorted(rows)
    ensures report.byHour == GroupsByHour(groupBy)
    ensures Reports(report, Visits(rows, HourOf(FromOf(filter)), HourOf(ToOf(filter, now))), table,
                    FilterSelector(Text.Trim(filter.client), Text.NormalName(filter.model)))
    ensures SumOf(ByStart(report.buckets)) == report.totals
    ensures SumOf(report.byClient) == report.totals && SumOf(report.byModel) == report.totals
  {
    hide Visits, Total, Less, Text.Trim, Text.NormalName, HourOf, Tallied, Lists, AddVisit, Breakdown, StrictOrder;
    var byHour := GroupsByHour(groupBy);
    var clientKey, modelKey := Text.Trim(filter.client), Text.NormalName(filter.model);
    var visits := AggIter(rows, HourOf(FromOf(filter)), HourOf(ToOf(filter, now)));
    ghost var sel := FilterSelector(clientKey, modelKey);
    var totals := NO_TOTALS;
    var bucketMap: map<Time, Totals> := map[];
    var byClient: map<string, Totals>, byModel: map<string, Totals> := map[], map[];
    NothingTallied(table, sel, BucketOf(byHour));
    NothingTallied(table, sel, ClientOf);
    NothingTallied(table, sel, ModelOf);
    NoVisits(table, sel);
    var i := 0;
    while i < |visits|
      invariant i <= |visits| && totals == Total(visits[..i], table, sel)
      invariant Tallied(bucketMap, visits[..i], table, sel, BucketOf(byHour))
      invariant Tallied(byClient, visits[..i], table, sel, ClientOf)
      invariant Tallied(byModel, visits[..i], table, sel, ModelOf)
    {
      var v := visits[i];
      assert visits[..i + 1] == visits[..i] + [v];
      TallyKeeps(bucketMap, visits[..i], v, table, sel, BucketOf(byHour));
      TallyKeeps(byClient, visits[..i], v, table, sel, ClientOf);
      TallyKeeps(byModel, visits[..i], v, table, sel, ModelOf);
      TotalStep(visits[..i], v, table, sel);
      i := i + 1;
      if clientKey != "" && v.cell.client != clientKey {
        continue;
      }
      if modelKey != "" && v.cell.model != modelKey {
        continue;
      }
      totals := AddVisit(totals, table, v);
      bucketMap := TallyVisit(bucketMap, BucketOf(byHour)(v.cell), table, v);
      byClient := TallyVisit(byClient, ClientOf(v.cell), table, v);
      byModel := TallyVisit(byModel, ModelOf(v.cell), table, v);
    }
    assert visits[..i] == visits;
    report := Finish(byHour, totals, bucketMap, byClient, byModel, visits, table, sel);
    ReportConserves(report, visits, table, sel);
  }

  /** The sorted lists of the report. */
  method Finish(byHour: bool, totals: Totals, bucketMap: map<Time, Totals>, clientMap: map<string, Totals>,
                modelMap: map<string, Totals>, ghost visits: seq<Visit>, ghost table: CostTable, ghost sel: Selector)
    returns (report: Report)
    requires totals == Total(visits, table, sel)
    requires Tallied(bucketMap, visits, table, sel, BucketOf(byHour))
    requires Tallied(clientMap, visits, table, sel, ClientOf) && Tallied(modelMap, visits, table, sel, ModelOf)
    ensures report.byHour == byHour && Reports(report, visits, table, sel)
  {
    hide Total, Tallied, Lists, Breakdown, Less, ClientOf, ModelOf;
    TimesOrdered();
    NamesOrdered();
    hide StrictOrder;
    var starts := Listing(bucketMap, Earlier);
    var byClient := Listing(clientMap, Less);
    var byModel := Listing(modelMap, Less);
    ListingIsBreakdown(starts, bucketMap, visits, table, sel, BucketOf(byHour), Earlier);
    ListingIsBreakdown(byClient, clientMap, visits, table, sel, ClientOf, Less);
    ListingIsBreakdown(byModel, modelMap, visits, table, sel, ModelOf, Less);
    var buckets := [];
    for i := 0 to |starts|
      invariant |buckets| == i
      invariant forall j :: 0 <= j < i ==>
        buckets[j] == Bucket(starts[j].key, starts[j].key + StepOf(byHour), starts[j].totals)
    {
      buckets := buckets + [Bucket(starts[i].key, starts[i].key + StepOf(byHour), starts[i].totals)];
    }
    assert ByStart(buckets) == starts;
    report := Report(byHour, totals, buckets, byClient, byModel);
  }

  lemma NothingTallied<K(!new)>(table: CostTable, sel: Selector, keyOf: Cell -> K)
    ensures Tallied(map[], [], table, sel, keyOf)
  {
  }

  lemma NoVisits(table: CostTable, sel: Selector)
    ensures Total([], table, sel) == NO_TOTALS
  {
  }

  lemma TotalStep(visits: seq<Visit>, v: Visit, table: CostTable, sel: Selector)
    ensures Total(visits + [v], table, sel)
         == if sel(v.cell) then AddVisit(Total(visits, table, sel), table, v) else Total(visits, table, sel)
  {
    assert (visits + [v])[..|visits|] == visits;
  }

  // ---------------------------------------------------------------------------
  // Summary

  /** The windows of the summary that the index serves. */
  datatype Windows = Windows(today: Totals, yesterday: Totals, last7: Totals, last30: Totals)

  /** Midnight of the day before. */
  function YesterdayStart(now: nat): int
    requires now >= 30 * DAY
  {
    Midnight(DayOf(now - DAY))
  }

  function LastSelector(start: int, now: nat): Selector {
    (cell: Cell) => start <= HourStart(cell.hour) <= now
  }

  function UntilSelector(start: int, end: int): Selector {
    (cell: Cell) => start <= HourStart(cell.hour) < end
  }

  ghost predicate Summarizes(w: Windows, visits: seq<Visit>, table: CostTable, now: nat)
    requires now >= 30 * DAY
  {
    && w.last30 == Total(visits, table, LastSelector(now - 30 * DAY, now))
    && w.last7 == Total(visits, table, LastSelector(now - 7 * DAY, now))
    && w.today == Total(visits, table, LastSelector(Midnight(DayOf(now)), now))
    && w.yesterday == Total(visits, table, UntilSelector(YesterdayStart(now), YesterdayStart(now) + DAY))
  }

  /** `Summary`, the windows read from the index. */
  method Summary(rows: seq<SortedRows.Row<Stored>>, table: CostTable, now: nat) returns (w: Windows)
    requires SortedRows.Sorted(rows) && now >= 30 * DAY
    ensures Summarizes(w, Visits(rows, HourOf(now - 30 * DAY), HourOf(now)), table, now)
    ensures AtMost(Add(w.today, w.yesterday), w.last7) && AtMost(w.last7, w.last30)
  {
    hide Visits, AddVisit;
    var todayStart, yStart := Midnight(DayOf(now)), YesterdayStart(now);
    var yEnd := yStart + DAY;
    var last7Start, last30Start := now - 7 * DAY, now - 30 * DAY;
    ghost var p30, p7 := LastSelector(last30Start, now), LastSelector(last7Start, now);
    ghost var pt, py := LastSelector(todayStart, now), UntilSelector(yStart, yEnd);
    YesterdayEnds(now);
    var visits := AggIter(rows, HourOf(last30Start), HourOf(now));
    w := Windows(NO_TOTALS, NO_TOTALS, NO_TOTALS, NO_TOTALS);
    var i := 0;
    while i < |visits|
      invariant i <= |visits|
      invariant w.last30 == Total(visits[..i], table, p30) && w.last7 == Total(visits[..i], table, p7)
      invariant w.today == Total(visits[..i], table, pt) && w.yesterday == Total(visits[..i], table, py)
    {
      var v := visits[i];
      assert visits[..i + 1] == visits[..i] + [v];
      TotalStep(visits[..i], v, table, p30);
      TotalStep(visits[..i], v, table, p7);
      TotalStep(visits[..i], v, table, pt);
      TotalStep(visits[..i], v, table, py);
      var hour := HourStart(v.cell.hour);
      if last30Start <= hour <= now {
        w := w.(last30 := AddVisit(w.last30, table, v));
        if hour >= last7Start {
          w := w.(last7 := AddVisit(w.last7, table, v));
        }
        if hour >= todayStart {
          w := w.(today := AddVisit(w.today, table, v));
        }
        if yStart <= hour < yEnd {
          w := w.(yesterday := AddVisit(w.yesterday, table, v));
        }
      }
      i := i + 1;
    }
    assert visits[..i] == visits;
    SummaryNests(visits, table, now, w);
  }

  /** Yesterday ends at midnight today, and starts within the last seven days. */
  lemma YesterdayEnds(now: nat)
    requires now >= 30 * DAY
    ensures YesterdayStart(now) + DAY == Midnight(DayOf(now)) <= now
    ensures now - 7 * DAY <= YesterdayStart(now)
  {
  }

  lemma AddBoth(a: Totals, b: Totals, c: Totals)
    requires AtMost(a, b)
    ensures AtMost(Add(a, c), Add(b, c))
  {
  }

  lemma AddRight(a: Totals, b: Totals, c: Totals)
    requires AtMost(a, b) && c.cost >= 0.0
    ensures AtMost(a, Add(b, c))
  {
  }

  lemma AddShuffle(a: Totals, b: Totals, c: Totals)
    ensures Add(Add(a, c), b) == Add(Add(a, b), c) && Add(a, Add(b, c)) == Add(Add(a, b), c)
  {
  }

  lemma {:induction false} TotalMonotone(visits: seq<Visit>, table: CostTable, p: Selector, q: Selector)
    requires forall cell :: p(cell) ==> q(cell)
    ensures AtMost(Total(visits, table, p), Total(visits, table, q))
  {
    hide CellCost;
    if visits != [] {
      hide AtMost, Add;
      var front, v := visits[..|visits| - 1], visits[|visits| - 1];
      var c, a, b := CellTotals(table, v.cell, v.value), Total(front, table, p), Total(front, table, q);
      TotalMonotone(front, table, p, q);
      CellCostAdds(table, v.cell.model, v.value, EMPTY_CELL);
      AddBoth(a, b, c);
      AddRight(a, b, c);
    }
  }

  lemma CellTotalsCost(table: CostTable, cell: Cell, c: AggCell)
    ensures CellTotals(table, cell, c).cost >= 0.0
  {
    CellCostAdds(table, cell.model, c, EMPTY_CELL);
  }

  /** Nothing in common, both within `r`. */
  ghost predicate Apart(p: Selector, q: Selector, r: Selector) {
    forall cell :: (p(cell) || q(cell) ==> r(cell)) && !(p(cell) && q(cell))
  }

  lemma ApartAt(p: Selector, q: Selector, r: Selector, cell: Cell)
    requires Apart(p, q, r)
    ensures (p(cell) || q(cell) ==> r(cell)) && !(p(cell) && q(cell))
  {
  }

  /** Two selections with nothing in common, both within a third. */
  lemma {:induction false} TotalDisjoint(visits: seq<Visit>, table: CostTable, p: Selector, q: Selector, r: Selector)
    requires Apart(p, q, r)
    ensures AtMost(Add(Total(visits, table, p), Total(visits, table, q)), Total(visits, table, r))
  {
    hide CellTotals, AtMost, Add;
    if visits == [] {
      NothingDisjoint();
    } else {
      var front, v := visits[..|visits| - 1], visits[|visits| - 1];
      TotalDisjoint(front, table, p, q, r);
      ApartAt(p, q, r, v.cell);
      CellTotalsCost(table, v.cell, v.value);
      DisjointStep(Total(front, table, p), Total(front, table, q), Total(front, table, r),
                   CellTotals(table, v.cell, v.value), p(v.cell), q(v.cell), r(v.cell));
    }
  }

  lemma NothingDisjoint()
    ensures AtMost(Add(NO_TOTALS, NO_TOTALS), NO_TOTALS)
  {
  }

  lemma DisjointStep(a: Totals, b: Totals, whole: Totals, c: Totals, inA: bool, inB: bool, inWhole: bool)
    requires AtMost(Add(a, b), whole) && c.cost >= 0.0 && (inA || inB ==> inWhole) && !(inA && inB)
    ensures AtMost(Add(if inA then Add(a, c) else a, if inB then Add(b, c) else b),
                   if inWhole then Add(whole, c) else whole)
  {
    AddShuffle(a, b, c);
    AddBoth(Add(a, b), whole, c);
    AddRight(Add(a, b), whole, c);
  }

  /** Today and yesterday together are at most the last seven days, and these at most the
      last thirty, in every counter and in cost. */
  lemma SummaryNests(visits: seq<Visit>, table: CostTable, now: nat, w: Windows)
    requires now >= 30 * DAY && Summarizes(w, visits, table, now)
    ensures AtMost(Add(w.today, w.yesterday), w.last7) && AtMost(w.last7, w.last30)
  {
    hide Total, AtMost;
    YesterdayEnds(now);
    var p7 := LastSelector(now - 7 * DAY, now);
    TotalMonotone(visits, table, p7, LastSelector(now - 30 * DAY, now));
    TotalDisjoint(visits, table, LastSelector(Midnight(DayOf(now)), now),
                  UntilSelector(YesterdayStart(now), YesterdayStart(now) + DAY), p7);
  }

  // ---------------------------------------------------------------------------
  // What the windows mean for the raw events

  /** The raw events of a span of instants. */
  function TotalsBetween(es: seq<Event>, table: CostTable, from: int, until: int): Totals {
    if es == [] then NO_TOTALS
    else
      var rest := TotalsBetween(es[1..], table, from, until);
      if from <= es[0].at < until then Add(CellTotals(table, EventCellId(es[0]), EventCell(es[0])), rest) else rest
  }

  /** The first whole hour that starts at or after an instant. */
  function HourFrom(t: nat): int {
    if HourStart(HourOf(t)) == t then t else HourStart(HourOf(t) + 1)
  }

  /** The event's cell is scanned and selected. */
  predicate SelectedIn(e: Event, lo: nat, hi: nat, sel: Selector) {
    lo <= HourOf(e.at) <= hi && sel(EventCellId(e))
  }

  lemma {:induction false} SpanOfHours(es: seq<Event>, table: CostTable, lo: nat, hi: nat, sel: Selector, from: int,
                                       until: int)
    requires forall e: Event :: SelectedIn(e, lo, hi, sel) <==> from <= e.at < until
    ensures EventTotals(es, table, lo, hi, sel) == TotalsBetween(es, table, from, until)
  {
    hide HourOf, CellTotals, EventCell;
    if es != [] {
      assert EventCellId(es[0]).hour == HourOf(es[0].at);
      SpanOfHours(es[1..], table, lo, hi, sel, from, until);
    }
  }

  lemma HourIsAfter(at: nat, t: nat)
    ensures t <= HourStart(HourOf(at)) <==> HourFrom(t) <= at
  {
  }

  lemma HourIsBefore(at: nat, t: nat)
    ensures HourStart(HourOf(at)) <= t <==> at < HourStart(HourOf(t) + 1)
    ensures HourOf(at) <= HourOf(t) <==> at < HourStart(HourOf(t) + 1)
  {
  }

  lemma EventInLast(e: Event, now: nat, start: nat)
    requires 30 * DAY <= now && now - 30 * DAY <= start <= now
    ensures SelectedIn(e, HourOf(now - 30 * DAY), HourOf(now), LastSelector(start, now))
            <==> HourFrom(start) <= e.at < HourStart(HourOf(now) + 1)
  {
    hide HourFrom, HourStart, HourOf, Text.NormalName, Text.Trim;
    HourIsAfter(e.at, start);
    HourIsBefore(e.at, now);
    if HourFrom(start) <= e.at {
      StartInHour(start, e.at);
      HoursInOrder(now - 30 * DAY, e.at);
    }
  }

  /** A window up to now covers the raw events from the first whole hour at or after its
      start to the end of the current hour. */
  lemma LastMeansEvents(rows: seq<SortedRows.Row<Stored>>, es: seq<Event>, table: CostTable, now: nat, start: nat)
    requires SortedRows.Sorted(rows) && Agrees(rows, es) && AllSeparable(es) && HourKey.FourDigitYear(HourOf(now))
    requires 30 * DAY <= now && now - 30 * DAY <= start <= now
    ensures Total(Visits(rows, HourOf(now - 30 * DAY), HourOf(now)), table, LastSelector(start, now))
         == TotalsBetween(es, table, HourFrom(start), HourStart(HourOf(now) + 1))
  {
    hide Agrees, AllSeparable, Visits, Total, HourKey.YearOf, HourFrom;
    hide HourStart, HourOf, EventTotals, TotalsBetween, LastSelector, EventCellId;
    YearKept(now - 30 * DAY, now);
    TotalsMeanEvents(rows, es, table, HourOf(now - 30 * DAY), HourOf(now), LastSelector(start, now));
    forall e: Event
      ensures SelectedIn(e, HourOf(now - 30 * DAY), HourOf(now), LastSelector(start, now))
              <==> HourFrom(start) <= e.at < HourStart(HourOf(now) + 1)
    {
      EventInLast(e, now, start);
    }
    SpanOfHours(es, table, HourOf(now - 30 * DAY), HourOf(now), LastSelector(start, now),
                HourFrom(start), HourStart(HourOf(now) + 1));
  }

  lemma EventInDay(e: Event, now: nat, day: nat)
    requires 30 * DAY <= now && now - 30 * DAY <= Midnight(day) && Midnight(day + 1) <= now
    ensures SelectedIn(e, HourOf(now - 30 * DAY), HourOf(now), UntilSelector(Midnight(day), Midnight(day + 1)))
            <==> Midnight(day) <= e.at < Midnight(day + 1)
  {
    hide HourStart, HourOf, Text.NormalName, Text.Trim;
    HourInDay(e.at, day);
    if Midnight(day) <= e.at < Midnight(day + 1) {
      HoursInOrder(now - 30 * DAY, e.at);
      HoursInOrder(e.at, now);
    }
  }

  lemma HourInDay(at: nat, day: nat)
    ensures Midnight(day) <= HourStart(HourOf(at)) < Midnight(day + 1) <==> Midnight(day) <= at < Midnight(day + 1)
  {
    hide HourOf, Midnight, HourStart;
    var h := HourOf(at);
    HourContains(at);
    MidnightIsHour(day);
    MidnightIsHour(day + 1);
    HourStartOrder(24 * day, h);
    HourStartOrder(h + 1, 24 * day);
    HourStartOrder(24 * day + 24, h);
    HourStartOrder(h + 1, 24 * day + 24);
  }

  lemma HourStartOrder(a: int, b: int)
    ensures HourStart(a) <= HourStart(b) <==> a <= b
  {
  }

  /** Yesterday is exactly the raw events of the day before: midnight to midnight. */
  lemma YesterdayMeansEvents(rows: seq<SortedRows.Row<Stored>>, es: seq<Event>, table: CostTable, now: nat)
    requires SortedRows.Sorted(rows) && Agrees(rows, es) && AllSeparable(es)
    requires HourKey.FourDigitYear(HourOf(now)) && 30 * DAY <= now
    ensures Total(Visits(rows, HourOf(now - 30 * DAY), HourOf(now)), table,
                  UntilSelector(YesterdayStart(now), YesterdayStart(now) + DAY))
         == TotalsBetween(es, table, YesterdayStart(now), YesterdayStart(now) + DAY)
  {
    hide Agrees, AllSeparable, Visits, Total, HourKey.YearOf;
    hide HourStart, HourOf, EventTotals, TotalsBetween, UntilSelector, EventCellId;
    var day := DayOf(now - DAY);
    YesterdayEnds(now);
    YearKept(now - 30 * DAY, now);
    TotalsMeanEvents(rows, es, table, HourOf(now - 30 * DAY), HourOf(now),
        UntilSelector(Midnight(day), Midnight(day + 1)));
    forall e: Event
      ensures SelectedIn(e, HourOf(now - 30 * DAY), HourOf(now), UntilSelector(Midnight(day), Midnight(day + 1)))
              <==> Midnight(day) <= e.at < Midnight(day + 1)
    {
      EventInDay(e, now, day);
    }
    SpanOfHours(es, table, HourOf(now - 30 * DAY), HourOf(now), UntilSelector(Midnight(day), Midnight(day + 1)),
                Midnight(day), Midnight(day + 1));
  }

  lemma StartInHour(start: nat, at: nat)
    requires HourFrom(start) <= at
    ensures start <= at
  {
  }

  lemma YearKept(a: nat, b: nat)
    requires a <= b && HourKey.FourDigitYear(HourOf(b))
    ensures HourKey.FourDigitYear(HourOf(a))
  {
    HoursInOrder(a, b);
    HourKey.YearMonotone(HourOf(a), HourOf(b));
  }
}

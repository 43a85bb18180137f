/** What a client spent over whole hours, read from the index: the grouped sums of
    `SumByClientRange`, priced group by group, are the priced sum of the raw events. */
module UsageSums {
  import opened Wrappers
  import opened Clock
  import opened SortedRows
  import opened Text
  import HourKey
  import opened AggKey
  import opened UsageIndex
  import opened UsageQuery
  import opened Pricing
  import opened QuotaModel

  /** Token sums by group key `endpoint_type:model`, in the form of a cell. */
  type Groups = map<string, AggCell>

  function GroupKey(v: Visit): string { v.cell.endpointType + ":" + v.cell.model }

  predicate NoColon(s: string) { ':' !in s }

  /** Text after the first colon; the whole text without one. */
  function ModelOfGroup(s: string): string {
    match CutColon(s)
    case Some(tail) => tail
    case None => s
  }

  function CutColon(s: string): Option<string> {
    if s == "" then None else if s[0] == ':' then Some(s[1..]) else CutColon(s[1..])
  }

  lemma {:induction false} CutColonAt(head: string, tail: string)
    requires NoColon(head)
    ensures CutColon(head + ":" + tail) == Some(tail)
  {
    var s := head + ":" + tail;
    if head == "" {
      assert s[0] == ':' && s[1..] == tail;
    } else {
      assert s[0] == head[0] && s[1..] == head[1..] + ":" + tail;
      CutColonAt(head[1..], tail);
    }
  }

  function GroupCell(groups: Groups, key: string): AggCell {
    if key in groups then groups[key] else EMPTY_CELL
  }

  predicate Matches(v: Visit, client: string, from: nat, to: nat) {
    v.cell.client == client && from <= v.cell.hour <= to
  }

  function AddVisit(groups: Groups, v: Visit, client: string, from: nat, to: nat): Groups {
    if Matches(v, client, from, to) then groups[GroupKey(v) := Plus(GroupCell(groups, GroupKey(v)), v.value)]
    else groups
  }

  function GroupSums(visits: seq<Visit>, client: string, from: nat, to: nat): Groups {
    if visits == [] then map[]
    else AddVisit(GroupSums(visits[..|visits| - 1], client, from, to), visits[|visits| - 1], client, from, to)
  }

  /** `SumByClientRange`. The hour of every visited cell is checked once more; no cell
      of a canonical bucket fails that check. */
  method SumByClientRange(rows: seq<Row<Stored>>, client: string, from: nat, to: nat) returns (groups: Groups)
    requires Sorted(rows)
    ensures from <= to ==> groups == GroupSums(Visits(rows, from, to), Trim(client), from, to)
    ensures to < from ==> groups == map[]
  {
    hide Sorted, AggKey.ParseKey, Visits, Trim, GroupKey, Plus;
    groups := map[];
    if to < from {
      return;
    }
    var name := Trim(client);
    var visits := AggIter(rows, from, to);
    var i := 0;
    while i < |visits|
      invariant i <= |visits| && groups == GroupSums(visits[..i], name, from, to)
    {
      assert visits[..i + 1][..i] == visits[..i];
      var v := visits[i];
      if v.cell.client == name && from <= v.cell.hour <= to {
        groups := groups[GroupKey(v) := Plus(GroupCell(groups, GroupKey(v)), v.value)];
      }
      i := i + 1;
    }
    assert visits[..i] == visits;
  }

  // ---------------------------------------------------------------------------
  // Pricing the groups

  ghost function GroupsCost(table: CostTable, groups: Groups): real
    decreases |groups|
  {
    if groups == map[] then 0.0
    else
      var k :| k in groups;
      CellCost(table, ModelOfGroup(k), groups[k]) + GroupsCost(table, groups - {k})
  }

  /** The order in which a map's entries are added up does not matter. */
  lemma {:induction false} GroupsCostAnyOrder(table: CostTable, groups: Groups, k: string)
    requires k in groups
    ensures GroupsCost(table, groups) == CellCost(table, ModelOfGroup(k), groups[k]) + GroupsCost(table, groups - {k})
    decreases |groups|
  {
    hide CellCost, ModelOfGroup;
    var c :| c in groups
      && GroupsCost(table, groups) == CellCost(table, ModelOfGroup(c), groups[c]) + GroupsCost(table, groups - {c});
    if c != k {
      GroupsCostAnyOrder(table, groups - {c}, k);
      GroupsCostAnyOrder(table, groups - {k}, c);
      assert groups - {c} - {k} == groups - {k} - {c};
    }
  }

  /** The pricing loop of `Evaluate` over the groups. */
  method PriceGroups(table: CostTable, groups: Groups) returns (used: real)
    ensures used == GroupsCost(table, groups)
  {
    hide CellCost, ModelOfGroup;
    used := 0.0;
    var rest := groups;
    while rest != map[]
      invariant rest.Keys <= groups.Keys
      invariant used + GroupsCost(table, rest) == GroupsCost(table, groups)
      decreases |rest|
    {
      var k :| k in rest;
      GroupsCostAnyOrder(table, rest, k);
      used := used + CellCost(table, ModelOfGroup(k), rest[k]);
      rest := rest - {k};
    }
  }

  lemma GroupsCostAdd(table: CostTable, groups: Groups, k: string, c: AggCell)
    ensures GroupsCost(table, groups[k := Plus(GroupCell(groups, k), c)])
         == GroupsCost(table, groups) + CellCost(table, ModelOfGroup(k), c)
  {
    hide CellCost, ModelOfGroup, Plus;
    var sum := Plus(GroupCell(groups, k), c);
    var groups' := groups[k := sum];
    GroupsCostAnyOrder(table, groups', k);
    CellCostAdds(table, ModelOfGroup(k), GroupCell(groups, k), c);
    CellCostAdds(table, ModelOfGroup(k), EMPTY_CELL, c);
    if k in groups {
      GroupsCostAnyOrder(table, groups, k);
      assert groups' - {k} == groups - {k};
    } else {
      assert groups' - {k} == groups;
    }
  }

  function VisitCost(table: CostTable, v: Visit, client: string, from: nat, to: nat): real {
    if Matches(v, client, from, to) then CellCost(table, v.cell.model, v.value) else 0.0
  }

  function VisitsCost(table: CostTable, visits: seq<Visit>, client: string, from: nat, to: nat): real {
    if visits == [] then 0.0
    else VisitsCost(table, visits[..|visits| - 1], client, from, to)
         + VisitCost(table, visits[|visits| - 1], client, from, to)
  }

  /** Grouping by endpoint type and model before pricing loses nothing, as long as the
      endpoint types have no colon. */
  lemma {:induction false} GroupingKeepsCost(table: CostTable, visits: seq<Visit>, client: string, from: nat, to: nat)
    requires forall i :: 0 <= i < |visits| ==> NoColon(visits[i].cell.endpointType)
    ensures GroupsCost(table, GroupSums(visits, client, from, to)) == VisitsCost(table, visits, client, from, to)
  {
    hide CellCost, ModelOfGroup, GroupsCost, Plus, NoColon;
    if visits == [] {
      EmptyGroups(table);
    } else {
      var front, v := visits[..|visits| - 1], visits[|visits| - 1];
      GroupingKeepsCost(table, front, client, from, to);
      if Matches(v, client, from, to) {
        GroupModel(v);
        GroupsCostAdd(table, GroupSums(front, client, from, to), GroupKey(v), v.value);
      }
    }
  }

  lemma EmptyGroups(table: CostTable)
    ensures GroupsCost(table, map[]) == 0.0
  {
  }

  lemma GroupModel(v: Visit)
    requires NoColon(v.cell.endpointType)
    ensures ModelOfGroup(GroupKey(v)) == v.cell.model
  {
    CutColonAt(v.cell.endpointType, v.cell.model);
  }

  // ---------------------------------------------------------------------------
  // From visited cells to raw events

  /** What a cell adds to a client's cost. */
  function ClientCost(table: CostTable, client: string, cell: Cell, c: AggCell): real {
    if cell.client == client then CellCost(table, cell.model, c) else 0.0
  }

  lemma {:induction false} VisitsCostIsWeight(table: CostTable, visits: seq<Visit>, client: string, from: nat, to: nat,
                                              f: (Cell, AggCell) -> real)
    requires forall cell, c :: f(cell, c) == ClientCost(table, client, cell, c)
    requires forall i :: 0 <= i < |visits| ==> from <= visits[i].cell.hour <= to
    ensures VisitsCost(table, visits, client, from, to) == Weigh(visits, f)
  {
    hide CellCost;
    if visits != [] {
      VisitsCostIsWeight(table, visits[..|visits| - 1], client, from, to, f);
    }
  }

  lemma {:induction false} RangeVisitsInRange(rows: seq<Row<Stored>>, from: nat, to: nat)
    ensures forall i :: 0 <= i < |RangeVisits(rows, from, to)| ==>
      from <= RangeVisits(rows, from, to)[i].cell.hour <= to
  {
    hide ParseKey;
    if rows != [] {
      RangeVisitsInRange(rows[1..], from, to);
    }
  }

  /** An event the accounting can follow: separable, with a client name in trimmed form,
      an endpoint type without a colon and a model name. */
  predicate Accountable(e: Event) {
    && Separable(e) && Trim(e.client) == e.client && e.client != ""
    && NoColon(NormalName(e.endpointType)) && NormalName(e.model) != ""
  }

  ghost predicate AllAccountable(es: seq<Event>) { forall i :: 0 <= i < |es| ==> Accountable(es[i]) }

  lemma LookupNormalized(table: CostTable, model: string)
    ensures LookupCost(table, NormalName(model)) == LookupCost(table, model)
  {
    hide NormalName;
    NormalNameIdempotent(model);
  }

  /** What an event of the client adds through its cell is its price. */
  lemma EventWeight(table: CostTable, e: Event, client: string)
    requires Accountable(e)
    ensures ClientCost(table, client, EventCellId(e), EventCell(e))
         == if e.client == client then EventCost(table, e) else 0.0
  {
    hide ParseKey, EventKey, NormalName, Trim, HourOf, Charge, Separable, LookupCost;
    LookupNormalized(table, e.model);
    RequestCostIsCellCost(table, e);
  }

  lemma HourInSpan(t: nat, from: nat, to: nat)
    ensures from <= HourOf(t) <= to <==> HourStart(from) <= t < HourStart(to + 1)
  {
    HourContains(t);
  }

  lemma {:induction false} EventsWeight(table: CostTable, es: seq<Event>, client: string, from: nat, to: nat,
                                        f: (Cell, AggCell) -> real)
    requires AllAccountable(es) && forall cell, c :: f(cell, c) == ClientCost(table, client, cell, c)
    ensures WeighEvents(es, from, to, f) == Spent(table, es, client, HourStart(from), HourStart(to + 1))
  {
    hide ClientCost, EventCellId, EventCell, EventCost, HourOf, HourStart, Accountable;
    if es != [] {
      EventsWeight(table, es[1..], client, from, to, f);
      EventWeight(table, es[0], client);
      HourInSpan(es[0].at, from, to);
      assert f(EventCellId(es[0]), EventCell(es[0])) == ClientCost(table, client, EventCellId(es[0]), EventCell(es[0]));
    }
  }

  lemma ClientCostAdditive(table: CostTable, client: string, f: (Cell, AggCell) -> real)
    requires forall cell, c :: f(cell, c) == ClientCost(table, client, cell, c)
    ensures CellAdditive(f)
  {
    hide CellCost, Plus;
    forall cell, a, b
      ensures f(cell, Plus(a, b)) == f(cell, a) + f(cell, b)
    {
      CellCostAdds(table, cell.model, a, b);
    }
    forall cell
      ensures f(cell, EMPTY_CELL) == 0.0
    {
      CellCostAdds(table, cell.model, EMPTY_CELL, EMPTY_CELL);
    }
  }

  /** Priced sums over an agreeing index are priced sums over the raw events: what the
      cells of a client cost over whole hours is what its events in those hours cost. */
  lemma IndexSpent(table: CostTable, rows: seq<Row<Stored>>, es: seq<Event>, client: string, from: nat, to: nat)
    requires Sorted(rows) && Agrees(rows, es) && AllAccountable(es)
    requires HourKey.FourDigitYear(from) && HourKey.FourDigitYear(to)
    ensures VisitsCost(table, Visits(rows, from, to), client, from, to)
         == Spent(table, es, client, HourStart(from), HourStart(to + 1))
  {
    hide ClientCost, Agrees, Separable, Spent, HourStart, HourKey.FourDigitYear, CellAdditive;
    var f := (cell, c) => ClientCost(table, client, cell, c);
    ClientCostAdditive(table, client, f);
    VisitsMeanEvents(rows, es, from, to, f);
    IndexIsCanonical(rows, es);
    ScanIsRange(rows, from, to);
    RangeVisitsInRange(rows, from, to);
    VisitsCostIsWeight(table, Visits(rows, from, to), client, from, to, f);
    EventsWeight(table, es, client, from, to, f);
  }
}

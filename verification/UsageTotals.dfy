/** Totals over visited cells, and what they mean for the raw events behind the index. */
module UsageTotals {
  import opened Wrappers
  import Clock
  import SortedRows
  import HourKey
  import opened AggKey
  import opened UsageIndex
  import opened UsageQuery
  import opened Pricing

  datatype Totals = Totals(requests: nat, input: nat, output: nat, cached: nat, cacheCreation: nat, cost: real)

  const NO_TOTALS: Totals := Totals(0, 0, 0, 0, 0, 0.0)

  function Add(a: Totals, b: Totals): Totals {
    Totals(a.requests + b.requests, a.input + b.input, a.output + b.output, a.cached + b.cached,
           a.cacheCreation + b.cacheCreation, a.cost + b.cost)
  }

  lemma AddNothing(a: Totals)
    ensures Add(NO_TOTALS, a) == a
  {
  }

  /** No counter is larger, nor the cost. */
  predicate AtMost(a: Totals, b: Totals) {
    && a.requests <= b.requests && a.input <= b.input && a.output <= b.output && a.cached <= b.cached
    && a.cacheCreation <= b.cacheCreation && a.cost <= b.cost
  }

  function CellTotals(table: CostTable, cell: Cell, c: AggCell): Totals {
    Totals(c.requests, c.input, c.output, c.cached, c.cacheCreation, CellCost(table, cell.model, c))
  }

  /** `addCellToTotals`. */
  function AddVisit(t: Totals, table: CostTable, v: Visit): Totals { Add(t, CellTotals(table, v.cell, v.value)) }

  /** Which cells a report selects. */
  type Selector = Cell -> bool

  /** The sum over the selected visits. */
  function Total(visits: seq<Visit>, table: CostTable, sel: Selector): Totals {
    if visits == [] then NO_TOTALS
    else
      var front, v := Total(visits[..|visits| - 1], table, sel), visits[|visits| - 1];
      if sel(v.cell) then AddVisit(front, table, v) else front
  }

  /** The sum over the raw events whose cell is selected and whose hour is in range, each
      priced as a cell of its own. */
  function EventTotals(es: seq<Event>, table: CostTable, from: nat, to: nat, sel: Selector): Totals {
    if es == [] then NO_TOTALS
    else
      var rest, id := EventTotals(es[1..], table, from, to, sel), EventCellId(es[0]);
      if from <= id.hour <= to && sel(id) then Add(CellTotals(table, id, EventCell(es[0])), rest) else rest
  }

  // ---------------------------------------------------------------------------
  // Part by part

  const PARTS := 6

  function Part(t: Totals, i: nat): real {
    if i == 0 then t.requests as real
    else if i == 1 then t.input as real
    else if i == 2 then t.output as real
    else if i == 3 then t.cached as real
    else if i == 4 then t.cacheCreation as real
    else t.cost
  }

  lemma PartsDetermine(a: Totals, b: Totals)
    requires forall i :: 0 <= i < PARTS ==> Part(a, i) == Part(b, i)
    ensures a == b
  {
    assert Part(a, 0) == Part(b, 0) && Part(a, 1) == Part(b, 1) && Part(a, 2) == Part(b, 2);
    assert Part(a, 3) == Part(b, 3) && Part(a, 4) == Part(b, 4) && Part(a, 5) == Part(b, 5);
  }

  lemma PartAdds(a: Totals, b: Totals, i: nat)
    ensures Part(Add(a, b), i) == Part(a, i) + Part(b, i)
  {
  }

  lemma PartOfPlus(table: CostTable, cell: Cell, a: AggCell, b: AggCell, i: nat)
    ensures Part(CellTotals(table, cell, Plus(a, b)), i)
         == Part(CellTotals(table, cell, a), i) + Part(CellTotals(table, cell, b), i)
    ensures Part(CellTotals(table, cell, EMPTY_CELL), i) == 0.0
  {
    hide CellCost;
    CellCostAdds(table, cell.model, a, b);
  }

  /** What a selected cell weighs in one part of a total. */
  function CellPart(table: CostTable, sel: Selector, i: nat, cell: Cell, c: AggCell): real {
    if sel(cell) then Part(CellTotals(table, cell, c), i) else 0.0
  }

  lemma CellPartAdditive(table: CostTable, sel: Selector, i: nat, f: (Cell, AggCell) -> real)
    requires forall cell, c :: f(cell, c) == CellPart(table, sel, i, cell, c)
    ensures CellAdditive(f)
  {
    hide CellTotals, Part, Plus;
    forall cell, a, b
      ensures f(cell, Plus(a, b)) == f(cell, a) + f(cell, b)
    {
      PartOfPlus(table, cell, a, b, i);
    }
    forall cell
      ensures f(cell, EMPTY_CELL) == 0.0
    {
      PartOfPlus(table, cell, EMPTY_CELL, EMPTY_CELL, i);
    }
  }

  lemma {:induction false} TotalIsWeight(visits: seq<Visit>, table: CostTable, sel: Selector, i: nat,
                                         f: (Cell, AggCell) -> real)
    requires forall cell, c :: f(cell, c) == CellPart(table, sel, i, cell, c)
    ensures Part(Total(visits, table, sel), i) == Weigh(visits, f)
  {
    hide CellTotals, Part;
    if visits == [] {
      PartOfNothing(i);
    } else {
      var front, v := visits[..|visits| - 1], visits[|visits| - 1];
      TotalIsWeight(front, table, sel, i, f);
      PartAdds(Total(front, table, sel), CellTotals(table, v.cell, v.value), i);
    }
  }

  lemma {:induction false} EventTotalsIsWeight(es: seq<Event>, table: CostTable, from: nat, to: nat, sel: Selector,
                                               i: nat, f: (Cell, AggCell) -> real)
    requires forall cell, c :: f(cell, c) == CellPart(table, sel, i, cell, c)
    ensures Part(EventTotals(es, table, from, to, sel), i) == WeighEvents(es, from, to, f)
  {
    hide CellTotals, Part, Clock.HourOf, EventCell;
    if es == [] {
      PartOfNothing(i);
    } else {
      EventTotalsIsWeight(es[1..], table, from, to, sel, i, f);
      PartAdds(CellTotals(table, EventCellId(es[0]), EventCell(es[0])), EventTotals(es[1..], table, from, to, sel), i);
    }
  }

  lemma PartOfNothing(i: nat)
    ensures Part(NO_TOTALS, i) == 0.0
  {
  }

  /** Every counter and the cost of a report over the scanned cells are those of the raw
      events in the same whole hours that the report selects. */
  lemma TotalsMeanEvents(rows: seq<SortedRows.Row<Stored>>, es: seq<Event>, table: CostTable, from: nat, to: nat,
                         sel: Selector)
    requires SortedRows.Sorted(rows) && Agrees(rows, es) && AllSeparable(es)
    requires HourKey.FourDigitYear(from) && HourKey.FourDigitYear(to)
    ensures Total(Visits(rows, from, to), table, sel) == EventTotals(es, table, from, to, sel)
  {
    hide Part, Agrees, AllSeparable, HourKey.FourDigitYear, CellPart;
    forall i | 0 <= i < PARTS
      ensures Part(Total(Visits(rows, from, to), table, sel), i) == Part(EventTotals(es, table, from, to, sel), i)
    {
      var f := (cell, c) => CellPart(table, sel, i, cell, c);
      CellPartAdditive(table, sel, i, f);
      TotalIsWeight(Visits(rows, from, to), table, sel, i, f);
      VisitsMeanEvents(rows, es, from, to, f);
      EventTotalsIsWeight(es, table, from, to, sel, i, f);
    }
    PartsDetermine(Total(Visits(rows, from, to), table, sel), EventTotals(es, table, from, to, sel));
  }
}

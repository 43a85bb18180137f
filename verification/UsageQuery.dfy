/** Reading the hourly index: the cursor scan over whole hours, and what sums over the
    visited cells mean for the raw events. */
module UsageQuery {
  import opened Wrappers
  import opened Clock
  import opened ByteOrder
  import opened SortedRows
  import opened Text
  import opened HourKey
  import opened AggKey
  import opened UsageIndex

  datatype Visit = Visit(cell: Cell, value: AggCell)

  /** What a row shows to the scan: nothing outside the byte range, for a malformed key
      or for a cell that does not decode. */
  function VisitOf(row: Row<Stored>, from: nat, to: nat): seq<Visit> {
    if InScan(row.key, from, to) && ParseKey(row.key).Some? && row.val.Good? then
      [Visit(ParseKey(row.key).value, row.val.cell)]
    else []
  }

  function Visits(rows: seq<Row<Stored>>, from: nat, to: nat): seq<Visit> {
    if rows == [] then [] else VisitOf(rows[0], from, to) + Visits(rows[1..], from, to)
  }

  lemma {:induction false} VisitsSkip(rows: seq<Row<Stored>>, n: nat, from: nat, to: nat)
    requires n <= |rows| && forall k :: 0 <= k < n ==> !InScan(rows[k].key, from, to)
    ensures Visits(rows, from, to) == Visits(rows[n..], from, to)
  {
    hide InScan, ParseKey;
    if n > 0 {
      assert VisitOf(rows[0], from, to) == [];
      VisitsSkip(rows[1..], n - 1, from, to);
      assert rows[1..][n - 1..] == rows[n..];
    } else {
      assert rows[0..] == rows;
    }
  }

  lemma {:induction false} VisitsNone(rows: seq<Row<Stored>>, from: nat, to: nat)
    requires forall k :: 0 <= k < |rows| ==> !InScan(rows[k].key, from, to)
    ensures Visits(rows, from, to) == []
  {
    VisitsSkip(rows, |rows|, from, to);
  }

  lemma PastTheStop(rows: seq<Row<Stored>>, i: nat, from: nat, to: nat)
    requires Sorted(rows) && i < |rows| && Less(FormatHour(to) + "}", rows[i].key)
    ensures Visits(rows[i..], from, to) == []
  {
    hide FormatHour, Less;
    forall k | 0 <= k < |rows[i..]|
      ensures !InScan(rows[i..][k].key, from, to)
    {
      if k > 0 {
        LessTransitive(FormatHour(to) + "}", rows[i].key, rows[i + k].key);
      }
    }
    VisitsNone(rows[i..], from, to);
  }

  /** `aggIter`: seek, walk, stop past the sentinel. */
  method AggIter(rows: seq<Row<Stored>>, from: nat, to: nat) returns (visits: seq<Visit>)
    requires Sorted(rows)
    ensures visits == Visits(rows, from, to)
  {
    hide FormatHour, Less, ParseKey, Visits, Sorted;
    var endStop := FormatHour(to) + "}";
    var i := Seek(rows, FormatHour(from));
    VisitsSkip(rows, i, from, to);
    SeekStart(rows, i, FormatHour(from));
    visits := [];
    while i < |rows|
      invariant i <= |rows| && visits + Visits(rows[i..], from, to) == Visits(rows, from, to)
      invariant forall k :: i <= k < |rows| ==> !Less(rows[k].key, FormatHour(from))
    {
      if Less(endStop, rows[i].key) {
        PastTheStop(rows, i, from, to);
        return;
      }
      VisitsStep(rows, i, from, to);
      if ParseKey(rows[i].key).Some? && rows[i].val.Good? {
        visits := visits + [Visit(ParseKey(rows[i].key).value, rows[i].val.cell)];
      }
      i := i + 1;
    }
    VisitsNone(rows[i..], from, to);
  }

  lemma VisitsStep(rows: seq<Row<Stored>>, i: nat, from: nat, to: nat)
    requires i < |rows|
    ensures Visits(rows[i..], from, to) == VisitOf(rows[i], from, to) + Visits(rows[i + 1..], from, to)
  {
    hide VisitOf;
    assert rows[i..][1..] == rows[i + 1..];
  }

  lemma SeekStart(rows: seq<Row<Stored>>, i: nat, start: string)
    requires Sorted(rows) && SeekPosition(rows, i, start)
    ensures forall k :: i <= k < |rows| ==> !Less(rows[k].key, start)
  {
    forall k | i <= k < |rows|
      ensures !Less(rows[k].key, start)
    {
      if k > i && Less(rows[k].key, start) {
        LessTransitive(rows[i].key, rows[k].key, start);
      }
    }
  }

  // ---------------------------------------------------------------------------
  // Exactness of the scan

  function RangeVisit(row: Row<Stored>, from: nat, to: nat): seq<Visit> {
    if ParseKey(row.key).Some? && from <= ParseKey(row.key).value.hour <= to && row.val.Good? then
      [Visit(ParseKey(row.key).value, row.val.cell)]
    else []
  }

  /** The same visits by hour instead of by bytes. */
  function RangeVisits(rows: seq<Row<Stored>>, from: nat, to: nat): seq<Visit> {
    if rows == [] then [] else RangeVisit(rows[0], from, to) + RangeVisits(rows[1..], from, to)
  }

  /** Well-formed keys are in the form `aggKey` writes; malformed ones may be there too. */
  ghost predicate CanonicalKeys(rows: seq<Row<Stored>>) {
    forall i :: 0 <= i < |rows| && ParseKey(rows[i].key).Some? ==> Canonical(rows[i].key)
  }

  /** The scan visits exactly the decodable, well-formed cells whose hour lies in the
      closed range of whole hours, in key order. */
  lemma {:induction false} ScanIsRange(rows: seq<Row<Stored>>, from: nat, to: nat)
    requires CanonicalKeys(rows) && FourDigitYear(from) && FourDigitYear(to)
    ensures Visits(rows, from, to) == RangeVisits(rows, from, to)
  {
    hide FormatHour, Less, ParseKey, InScan, Canonical, FourDigitYear;
    if rows != [] {
      ScanIsRange(rows[1..], from, to);
      if ParseKey(rows[0].key).Some? {
        ScanExact(rows[0].key, from, to);
      }
    }
  }

  // ---------------------------------------------------------------------------
  // Events in good order

  /** An event whose dimensions survive the composite key: a year of four digits, and no
      bar in its endpoint type or client. */
  predicate Separable(e: Event) {
    FourDigitYear(HourOf(e.at)) && NoBar(NormalName(e.endpointType)) && NoBar(OrUnknown(Trim(e.client)))
  }

  function EventCellId(e: Event): Cell { CellOf(e.at, e.endpointType, e.client, e.model) }

  lemma SeparableKey(e: Event)
    requires Separable(e)
    ensures ParseKey(EventKey(e)) == Some(EventCellId(e)) && Canonical(EventKey(e))
  {
    hide FormatHour, ParseHour, FourDigitYear, NormalName, Trim, HourOf, ParseKey, Cut, NoBar;
    var c := EventCellId(e);
    ParseEncode(c);
    FormatHourNoBar(c.hour);
    var rest := c.endpointType + "|" + c.client + "|" + c.model;
    assert Encode(c) == FormatHour(c.hour) + "|" + rest;
    CutAtFirstBar(FormatHour(c.hour), rest);
  }

  ghost predicate AllSeparable(es: seq<Event>) { forall i :: 0 <= i < |es| ==> Separable(es[i]) }

  lemma {:induction false} CellHasEvent(es: seq<Event>, key: string)
    requires CellFor(es, key).requests > 0
    ensures exists i :: 0 <= i < |es| && EventKey(es[i]) == key
  {
    hide EventKey;
    if EventKey(es[0]) != key {
      CellHasEvent(es[1..], key);
      var i :| 0 <= i < |es[1..]| && EventKey(es[1..][i]) == key;
      assert es[i + 1] == es[1..][i];
    }
  }

  lemma {:induction false} EventHasCell(es: seq<Event>, i: nat)
    requires i < |es|
    ensures CellFor(es, EventKey(es[i])).requests > 0
  {
    hide EventKey;
    if i > 0 {
      EventHasCell(es[1..], i - 1);
    }
  }

  /** An index that agrees with separable events has keys in canonical form only. */
  lemma IndexIsCanonical(rows: seq<Row<Stored>>, es: seq<Event>)
    requires Sorted(rows) && Agrees(rows, es) && AllSeparable(es)
    ensures CanonicalKeys(rows)
  {
    hide FormatHour, Less, ParseKey, Canonical, CellFor, Separable, EventKey;
    forall i | 0 <= i < |rows|
      ensures Canonical(rows[i].key)
    {
      var key := rows[i].key;
      GetAt(rows, i);
      assert Get(rows, key) == ExpectedCell(es, key);
      CellHasEvent(es, key);
      var j :| 0 <= j < |es| && EventKey(es[j]) == key;
      SeparableKey(es[j]);
    }
  }

  // ---------------------------------------------------------------------------
  // Sums over cells are sums over events

  /** A quantity read off cells that adds up. */
  ghost predicate Additive(w: (string, AggCell) -> real) {
    && (forall k {:trigger w(k, EMPTY_CELL)} :: w(k, EMPTY_CELL) == 0.0)
    && (forall k, a, b {:trigger w(k, Plus(a, b))} :: w(k, Plus(a, b)) == w(k, a) + w(k, b))
  }

  function SumRows(rows: seq<Row<Stored>>, w: (string, AggCell) -> real): real {
    if rows == [] then 0.0
    else (if rows[0].val.Good? then w(rows[0].key, rows[0].val.cell) else 0.0) + SumRows(rows[1..], w)
  }

  function SumEvents(es: seq<Event>, w: (string, AggCell) -> real): real {
    if es == [] then 0.0 else w(EventKey(es[0]), EventCell(es[0])) + SumEvents(es[1..], w)
  }

  /** The sum over the keys of the rows, with each cell recomputed from the events. */
  function SumFolds(rows: seq<Row<Stored>>, es: seq<Event>, w: (string, AggCell) -> real): real {
    if rows == [] then 0.0 else w(rows[0].key, CellFor(es, rows[0].key)) + SumFolds(rows[1..], es, w)
  }

  lemma {:induction false} RowsAreFolds(rows: seq<Row<Stored>>, es: seq<Event>, w: (string, AggCell) -> real)
    requires forall i :: 0 <= i < |rows| ==> rows[i].val == Good(CellFor(es, rows[i].key))
    ensures SumRows(rows, w) == SumFolds(rows, es, w)
  {
    hide CellFor;
    if rows != [] {
      RowsAreFolds(rows[1..], es, w);
    }
  }

  lemma {:induction false} FoldsOfNothing(rows: seq<Row<Stored>>, w: (string, AggCell) -> real)
    requires Additive(w)
    ensures SumFolds(rows, [], w) == 0.0
  {
    if rows != [] {
      FoldsOfNothing(rows[1..], w);
      assert w(rows[0].key, EMPTY_CELL) == 0.0;
    }
  }

  /** One more event adds its own weight, through the one row with its key. */
  lemma {:induction false} FoldsOneMore(rows: seq<Row<Stored>>, e: Event, es: seq<Event>, w: (string, AggCell) -> real)
    requires Sorted(rows) && Additive(w)
    ensures SumFolds(rows, [e] + es, w)
         == SumFolds(rows, es, w) + if Get(rows, EventKey(e)).Some? then w(EventKey(e), EventCell(e)) else 0.0
  {
    hide EventKey, EventCell, Plus, Less, EMPTY_CELL;
    if rows != [] {
      FoldsOneMore(rows[1..], e, es, w);
      var key := rows[0].key;
      assert ([e] + es)[0] == e && ([e] + es)[1..] == es;
      assert CellFor([e] + es, key)
          == if EventKey(e) == key then Plus(EventCell(e), CellFor(es, key)) else CellFor(es, key);
      if EventKey(e) == key {
        assert w(key, Plus(EventCell(e), CellFor(es, key))) == w(key, EventCell(e)) + w(key, CellFor(es, key));
        FirstKeyOnce(rows);
      }
    }
  }

  lemma FirstKeyOnce(rows: seq<Row<Stored>>)
    requires Sorted(rows) && rows != []
    ensures Get(rows[1..], rows[0].key) == None
  {
    LessIrreflexive(rows[0].key);
    GetFinds(rows[1..], rows[0].key);
  }

  lemma {:induction false} FoldsAreEvents(rows: seq<Row<Stored>>, es: seq<Event>, w: (string, AggCell) -> real)
    requires Sorted(rows) && Additive(w)
    requires forall i :: 0 <= i < |es| ==> Get(rows, EventKey(es[i])).Some?
    ensures SumFolds(rows, es, w) == SumEvents(es, w)
  {
    hide EventKey, Less, Get, CellFor;
    if es == [] {
      FoldsOfNothing(rows, w);
    } else {
      assert es == [es[0]] + es[1..];
      FoldsAreEvents(rows, es[1..], w);
      FoldsOneMore(rows, es[0], es[1..], w);
    }
  }

  /** Whatever adds up over cells has the same total over an agreeing index as over the
      raw events. */
  lemma IndexSum(rows: seq<Row<Stored>>, es: seq<Event>, w: (string, AggCell) -> real)
    requires Sorted(rows) && Agrees(rows, es) && Additive(w)
    ensures SumRows(rows, w) == SumEvents(es, w)
  {
    hide EventKey, Less, Get, CellFor, Additive;
    forall i | 0 <= i < |rows|
      ensures rows[i].val == Good(CellFor(es, rows[i].key))
    {
      GetAt(rows, i);
      assert Get(rows, rows[i].key) == ExpectedCell(es, rows[i].key);
    }
    forall i | 0 <= i < |es|
      ensures Get(rows, EventKey(es[i])).Some?
    {
      EventHasCell(es, i);
      assert Get(rows, EventKey(es[i])) == ExpectedCell(es, EventKey(es[i]));
    }
    RowsAreFolds(rows, es, w);
    FoldsAreEvents(rows, es, w);
  }

  // ---------------------------------------------------------------------------
  // From visited cells to raw events

  /** A quantity read off a cell and its dimensions that adds up over the counters. */
  ghost predicate CellAdditive(f: (Cell, AggCell) -> real) {
    && (forall c {:trigger f(c, EMPTY_CELL)} :: f(c, EMPTY_CELL) == 0.0)
    && (forall c, a, b {:trigger f(c, Plus(a, b))} :: f(c, Plus(a, b)) == f(c, a) + f(c, b))
  }

  function Weigh(visits: seq<Visit>, f: (Cell, AggCell) -> real): real {
    if visits == [] then 0.0
    else Weigh(visits[..|visits| - 1], f) + f(visits[|visits| - 1].cell, visits[|visits| - 1].value)
  }

  /** The same quantity over the raw events of whole hours, each a cell of its own. */
  function WeighEvents(es: seq<Event>, from: nat, to: nat, f: (Cell, AggCell) -> real): real {
    if es == [] then 0.0
    else
      (if from <= HourOf(es[0].at) <= to then f(EventCellId(es[0]), EventCell(es[0])) else 0.0)
      + WeighEvents(es[1..], from, to, f)
  }

  function KeyWeight(f: (Cell, AggCell) -> real, from: nat, to: nat, key: string, c: AggCell): real {
    match ParseKey(key)
    case Some(cell) => if from <= cell.hour <= to then f(cell, c) else 0.0
    case None => 0.0
  }

  ghost predicate WeighsBy(w: (string, AggCell) -> real, f: (Cell, AggCell) -> real, from: nat, to: nat) {
    forall key, c :: w(key, c) == KeyWeight(f, from, to, key, c)
  }

  lemma KeyWeightAdditive(w: (string, AggCell) -> real, f: (Cell, AggCell) -> real, from: nat, to: nat)
    requires WeighsBy(w, f, from, to) && CellAdditive(f)
    ensures Additive(w)
  {
    hide ParseKey, Plus;
    forall key, a, b
      ensures w(key, Plus(a, b)) == w(key, a) + w(key, b)
    {
      assert w(key, Plus(a, b)) == KeyWeight(f, from, to, key, Plus(a, b));
      if ParseKey(key).Some? {
        var cell := ParseKey(key).value;
        assert f(cell, Plus(a, b)) == f(cell, a) + f(cell, b);
      }
    }
    forall key
      ensures w(key, EMPTY_CELL) == 0.0
    {
      if ParseKey(key).Some? {
        assert f(ParseKey(key).value, EMPTY_CELL) == 0.0;
      }
    }
  }

  lemma {:induction false} WeighAppend(a: seq<Visit>, b: seq<Visit>, f: (Cell, AggCell) -> real)
    ensures Weigh(a + b, f) == Weigh(a, f) + Weigh(b, f)
    decreases |b|
  {
    if b == [] {
      assert a + b == a;
    } else {
      assert (a + b)[..|a + b| - 1] == a + b[..|b| - 1] && (a + b)[|a + b| - 1] == b[|b| - 1];
      WeighAppend(a, b[..|b| - 1], f);
    }
  }

  lemma {:induction false} WeighIsRows(rows: seq<Row<Stored>>, w: (string, AggCell) -> real, f: (Cell, AggCell) -> real,
                                       from: nat, to: nat)
    requires WeighsBy(w, f, from, to)
    ensures Weigh(RangeVisits(rows, from, to), f) == SumRows(rows, w)
  {
    hide ParseKey;
    if rows != [] {
      var head := RangeVisit(rows[0], from, to);
      WeighIsRows(rows[1..], w, f, from, to);
      WeighAppend(head, RangeVisits(rows[1..], from, to), f);
      if rows[0].val.Good? {
        assert w(rows[0].key, rows[0].val.cell) == KeyWeight(f, from, to, rows[0].key, rows[0].val.cell);
      }
      if head != [] {
        assert head[..0] == [];
      }
    }
  }

  lemma {:induction false} EventsWeigh(es: seq<Event>, w: (string, AggCell) -> real, f: (Cell, AggCell) -> real,
                                       from: nat, to: nat)
    requires WeighsBy(w, f, from, to) && AllSeparable(es)
    ensures SumEvents(es, w) == WeighEvents(es, from, to, f)
  {
    hide ParseKey, EventKey, Separable, EventCell, NormalName, Trim, HourOf;
    if es != [] {
      EventsWeigh(es[1..], w, f, from, to);
      SeparableKey(es[0]);
      assert w(EventKey(es[0]), EventCell(es[0])) == KeyWeight(f, from, to, EventKey(es[0]), EventCell(es[0]));
    }
  }

  /** Whatever adds up over the cells that a scan visits adds up to the same over the raw
      events in the same whole hours. */
  lemma VisitsMeanEvents(rows: seq<Row<Stored>>, es: seq<Event>, from: nat, to: nat, f: (Cell, AggCell) -> real)
    requires Sorted(rows) && Agrees(rows, es) && AllSeparable(es) && CellAdditive(f)
    requires FourDigitYear(from) && FourDigitYear(to)
    ensures Weigh(Visits(rows, from, to), f) == WeighEvents(es, from, to, f)
  {
    hide Agrees, AllSeparable, FourDigitYear, KeyWeight, CellAdditive, Additive;
    var w := (key, c) => KeyWeight(f, from, to, key, c);
    IndexIsCanonical(rows, es);
    ScanIsRange(rows, from, to);
    KeyWeightAdditive(w, f, from, to);
    WeighIsRows(rows, w, f, from, to);
    IndexSum(rows, es, w);
    EventsWeigh(es, w, f, from, to);
  }
}

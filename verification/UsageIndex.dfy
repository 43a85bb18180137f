/** The usage store: raw events, and the hourly aggregate cells that index them. */
module UsageIndex {
  import opened Wrappers
  import opened ByteOrder
  import opened SortedRows
  import AggKey

  datatype Event = Event(
    at: nat,
    client: string,
    endpointType: string,
    model: string,
    input: nat,
    output: nat,
    cached: nat,
    cacheCreation: nat,
    status: int)

  datatype AggCell = AggCell(requests: nat, success: nat, input: nat, output: nat, cached: nat, cacheCreation: nat)

  const EMPTY_CELL: AggCell := AggCell(0, 0, 0, 0, 0, 0)

  function Plus(a: AggCell, b: AggCell): AggCell {
    AggCell(a.requests + b.requests, a.success + b.success, a.input + b.input, a.output + b.output,
            a.cached + b.cached, a.cacheCreation + b.cacheCreation)
  }

  predicate IsSuccessStatus(code: int) { 0 < code < 500 }

  /** What one event adds to its cell. */
  function EventCell(e: Event): AggCell {
    AggCell(1, if IsSuccessStatus(e.status) then 1 else 0, e.input, e.output, e.cached, e.cacheCreation)
  }

  function EventKey(e: Event): string { AggKey.AggKeyOf(e.at, e.endpointType, e.client, e.model) }

  /** A stored cell may fail to decode; so may a raw row. */
  datatype Stored = Good(cell: AggCell) | Corrupt

  datatype Raw = Decoded(event: Event) | Undecodable

  /** The decodable events of the raw rows, in key order. */
  function Decodable(rows: seq<Row<Raw>>): (es: seq<Event>) {
    if rows == [] then []
    else (if rows[0].val.Decoded? then [rows[0].val.event] else []) + Decodable(rows[1..])
  }

  /** The fold of the events with a given key. */
  function CellFor(es: seq<Event>, key: string): AggCell {
    if es == [] then EMPTY_CELL
    else
      var rest := CellFor(es[1..], key);
      if EventKey(es[0]) == key then Plus(EventCell(es[0]), rest) else rest
  }

  /** Every cell is the fold of the events with its key, and there is a cell for a key
      exactly when some event has it. */
  ghost predicate Agrees(cells: seq<Row<Stored>>, es: seq<Event>) {
    forall key :: Get(cells, key) == ExpectedCell(es, key)
  }

  function ExpectedCell(es: seq<Event>, key: string): Option<Stored> {
    if CellFor(es, key).requests > 0 then Some(Good(CellFor(es, key))) else None
  }

  // ---------------------------------------------------------------------------
  // bumpAgg

  function BaseCell(stored: Option<Stored>): AggCell {
    match stored
    case Some(Good(cell)) => cell
    case Some(Corrupt) => EMPTY_CELL
    case None => EMPTY_CELL
  }

  /** `cells'` is `cells` with one event counted in; a corrupt cell starts again. */
  ghost predicate Bumped(cells: seq<Row<Stored>>, e: Event, cells': seq<Row<Stored>>) {
    && Sorted(cells')
    && forall key :: Get(cells', key) == BumpedCell(cells, e, key)
  }

  function BumpedCell(cells: seq<Row<Stored>>, e: Event, key: string): Option<Stored> {
    if key == EventKey(e) then Some(Good(Plus(BaseCell(Get(cells, key)), EventCell(e)))) else Get(cells, key)
  }

  method BumpAgg(cells: seq<Row<Stored>>, e: Event) returns (cells': seq<Row<Stored>>)
    requires Sorted(cells)
    ensures Bumped(cells, e, cells')
  {
    hide EventKey, Less, Sorted;
    var key := EventKey(e);
    var i := Seek(cells, key);
    var base := EMPTY_CELL;
    if i < |cells| && cells[i].key == key {
      GetAt(cells, i);
      base := BaseCell(Some(cells[i].val));
    } else {
      AbsentKey(cells, i, key);
    }
    var cell := AggCell(base.requests + 1, base.success + (if IsSuccessStatus(e.status) then 1 else 0),
                        base.input + e.input, base.output + e.output, base.cached + e.cached,
                        base.cacheCreation + e.cacheCreation);
    cells' := if i < |cells| && cells[i].key == key then cells[..i] + [Row(key, Good(cell))] + cells[i + 1..]
              else cells[..i] + [Row(key, Good(cell))] + cells[i..];
    PutSorted(cells, i, key, Good(cell));
    forall other
      ensures Get(cells', other) == BumpedCell(cells, e, other)
    {
      PutGet(cells, i, key, Good(cell), other);
    }
  }

  lemma AbsentKey<V>(rows: seq<Row<V>>, i: nat, key: string)
    requires Sorted(rows) && SeekPosition(rows, i, key) && (i < |rows| ==> rows[i].key != key)
    ensures Get(rows, key) == None
  {
    LessIrreflexive(key);
    if i < |rows| {
      LessTotal(rows[i].key, key);
      forall j | i <= j < |rows|
        ensures rows[j].key != key
      {
        if j > i {
          LessTransitive(key, rows[i].key, rows[j].key);
        }
      }
    }
    GetFinds(rows, key);
  }

  lemma PlusEmpty(a: AggCell)
    ensures Plus(EMPTY_CELL, a) == a && Plus(a, EMPTY_CELL) == a
  {
  }

  lemma PlusAssociative(a: AggCell, b: AggCell, c: AggCell)
    ensures Plus(Plus(a, b), c) == Plus(a, Plus(b, c))
  {
  }

  lemma {:induction false} CellForAppend(a: seq<Event>, b: seq<Event>, key: string)
    ensures CellFor(a + b, key) == Plus(CellFor(a, key), CellFor(b, key))
  {
    hide EventKey, Plus, EventCell;
    if a == [] {
      assert a + b == b;
      PlusEmpty(CellFor(b, key));
    } else {
      var s := a + b;
      assert s[0] == a[0] && s[1..] == a[1..] + b;
      CellForAppend(a[1..], b, key);
      PlusAssociative(EventCell(a[0]), CellFor(a[1..], key), CellFor(b, key));
    }
  }

  /** No requests, no tokens. */
  lemma {:induction false} NoRequestsEmpty(es: seq<Event>, key: string)
    ensures CellFor(es, key).requests == 0 ==> CellFor(es, key) == EMPTY_CELL
  {
    hide EventKey;
    if es != [] {
      NoRequestsEmpty(es[1..], key);
    }
  }

  lemma CellForOne(e: Event, key: string)
    ensures CellFor([e], key) == if EventKey(e) == key then EventCell(e) else EMPTY_CELL
  {
    hide EventKey;
    assert CellFor([e][1..], key) == EMPTY_CELL;
  }

  lemma PlusSwap(a: AggCell, b: AggCell, c: AggCell)
    ensures Plus(Plus(a, b), c) == Plus(Plus(a, c), b)
    ensures Plus(a, b).requests == a.requests + b.requests
  {
  }

  lemma CellForInside(a: seq<Event>, b: seq<Event>, e: Event, key: string)
    ensures CellFor(a + [e] + b, key)
         == if EventKey(e) == key then Plus(CellFor(a + b, key), EventCell(e)) else CellFor(a + b, key)
  {
    hide EventKey, CellFor, EventCell, Plus;
    CellForAppend(a, b, key);
    CellForAppend(a + [e], b, key);
    CellForAppend(a, [e], key);
    CellForOne(e, key);
    PlusEmpty(CellFor(a, key));
    PlusSwap(CellFor(a, key), EventCell(e), CellFor(b, key));
  }

  lemma CellOneIn(cells: seq<Row<Stored>>, a: seq<Event>, b: seq<Event>, e: Event, key: string)
    requires Get(cells, key) == ExpectedCell(a + b, key)
    ensures BumpedCell(cells, e, key) == ExpectedCell(a + [e] + b, key)
  {
    hide EventKey, CellFor, Get, Plus;
    CellForInside(a, b, e, key);
    NoRequestsEmpty(a + b, key);
    PlusSwap(CellFor(a + b, key), EventCell(e), EMPTY_CELL);
  }

  /** Counting one more event in, wherever it comes among the raw rows. */
  lemma BumpKeepsAgreement(cells: seq<Row<Stored>>, a: seq<Event>, b: seq<Event>, e: Event, cells': seq<Row<Stored>>)
    requires Agrees(cells, a + b) && Bumped(cells, e, cells')
    ensures Agrees(cells', a + [e] + b)
  {
    hide BumpedCell, ExpectedCell, Sorted, Get;
    forall key
      ensures Get(cells', key) == ExpectedCell(a + [e] + b, key)
    {
      assert Get(cells, key) == ExpectedCell(a + b, key);
      CellOneIn(cells, a, b, e, key);
    }
  }
}

/** The store that keeps raw events and their hourly index together. */
module UsageStores {
  import opened Wrappers
  import Clock
  import opened ByteOrder
  import opened SortedRows
  import AggKey
  import opened Text
  import opened UsageIndex

  /** `Record` stamps an event without a time, and trims and lower-cases the dimensions,
      before it stores it. */
  function Normalized(e: Event, now: nat): Event {
    e.(at := if e.at == Clock.ZERO_TIME then now else e.at, client := Trim(e.client),
       endpointType := NormalName(e.endpointType), model := NormalName(e.model))
  }

  /** Normalising does not move an event that has a time to another cell. */
  lemma NormalizedKey(e: Event, now: nat)
    requires e.at != Clock.ZERO_TIME
    ensures EventKey(Normalized(e, now)) == EventKey(e)
  {
    hide AggKey.Encode, Clock.HourOf, NormalName, Trim;
    TrimIdempotent(e.client);
    NormalNameIdempotent(e.endpointType);
    NormalNameIdempotent(e.model);
  }

  /** What is stored has a time, no outer space in its names and no capitals in endpoint type
      and model; its numbers are those of the event. */
  lemma NormalizedClean(e: Event, now: nat)
    ensures var n := Normalized(e, now);
            && (e.at != 0 ==> n.at == e.at) && (e.at == 0 ==> n.at == now)
            && NoOuterSpace(n.client) && NoOuterSpace(n.endpointType) && NoOuterSpace(n.model)
            && (forall c :: c in n.endpointType || c in n.model ==> !('A' <= c <= 'Z'))
            && (n.input, n.output, n.cached, n.cacheCreation, n.status)
               == (e.input, e.output, e.cached, e.cacheCreation, e.status)
  {
    hide Trim, NormalName, NoOuterSpace;
    TrimEnds(e.client);
    CleanName(e.endpointType);
    CleanName(e.model);
  }

  predicate NoOuterSpace(s: string) { s == "" || (!IsSpace(s[0]) && !IsSpace(s[|s| - 1])) }

  lemma TrimEnds(s: string)
    ensures NoOuterSpace(Trim(s))
  {
    if TrimLeft(s) != [] {
      TrimRightKeepsFirst(TrimLeft(s));
    }
  }

  lemma CleanName(s: string)
    ensures var n := NormalName(s);
            NoOuterSpace(n) && forall c :: c in n ==> !('A' <= c <= 'Z')
  {
    hide Trim;
    TrimEnds(s);
    forall c | c in NormalName(s)
      ensures !('A' <= c <= 'Z')
    {
      var i :| 0 <= i < |NormalName(s)| && NormalName(s)[i] == c;
      LowerMeans(Trim(s), i);
    }
  }

  lemma {:induction false} DecodableAppend(a: seq<Row<Raw>>, b: seq<Row<Raw>>)
    ensures Decodable(a + b) == Decodable(a) + Decodable(b)
  {
    if a == [] {
      assert a + b == b;
    } else {
      assert (a + b)[0] == a[0] && (a + b)[1..] == a[1..] + b;
      DecodableAppend(a[1..], b);
      var head := if a[0].val.Decoded? then [a[0].val.event] else [];
      assert Decodable(a) == head + Decodable(a[1..]);
      hide Decodable;
      assert head + (Decodable(a[1..]) + Decodable(b)) == (head + Decodable(a[1..])) + Decodable(b);
    }
  }

  lemma DecodableOne(row: Row<Raw>)
    ensures Decodable([row]) == if row.val.Decoded? then [row.val.event] else []
  {
    assert [row][1..] == [];
  }

  lemma DecodableNext(rows: seq<Row<Raw>>, from: nat, i: nat)
    requires from <= i < |rows|
    ensures Decodable(rows[from..i + 1])
         == Decodable(rows[from..i]) + if rows[i].val.Decoded? then [rows[i].val.event] else []
  {
    hide Decodable;
    assert rows[from..i + 1] == rows[from..i] + [rows[i]];
    DecodableAppend(rows[from..i], [rows[i]]);
    DecodableOne(rows[i]);
  }

  lemma NoneDecodable(rows: seq<Row<Raw>>)
    requires rows == []
    ensures Decodable(rows) == []
  {
  }

  /** `cells'` is `cells0` with the events `es` counted in. */
  ghost predicate Added(cells0: seq<Row<Stored>>, es: seq<Event>, cells': seq<Row<Stored>>) {
    Sorted(cells') && forall key :: Get(cells', key) == AddedCell(cells0, es, key)
  }

  function AddedCell(cells0: seq<Row<Stored>>, es: seq<Event>, key: string): Option<Stored> {
    if CellFor(es, key).requests > 0 then Some(Good(Plus(BaseCell(Get(cells0, key)), CellFor(es, key))))
    else Get(cells0, key)
  }

  lemma AddedOneMore(cells0: seq<Row<Stored>>, es: seq<Event>, cells1: seq<Row<Stored>>, e: Event,
                     cells2: seq<Row<Stored>>)
    requires Added(cells0, es, cells1) && Bumped(cells1, e, cells2)
    ensures Added(cells0, es + [e], cells2)
  {
    hide EventKey, CellFor, Sorted, Get, AddedCell, BumpedCell;
    forall key
      ensures Get(cells2, key) == AddedCell(cells0, es + [e], key)
    {
      assert Get(cells1, key) == AddedCell(cells0, es, key);
      assert Get(cells2, key) == BumpedCell(cells1, e, key);
      CellOneMore(cells0, es, cells1, e, key);
    }
  }

  lemma CellOneMore(cells0: seq<Row<Stored>>, es: seq<Event>, cells1: seq<Row<Stored>>, e: Event, key: string)
    requires Get(cells1, key) == AddedCell(cells0, es, key)
    ensures BumpedCell(cells1, e, key) == AddedCell(cells0, es + [e], key)
  {
    hide EventKey, CellFor, Get, Plus;
    var base, sofar := BaseCell(Get(cells0, key)), CellFor(es, key);
    CellForAppend(es, [e], key);
    CellForOne(e, key);
    NoRequestsEmpty(es, key);
    PlusAssociative(base, sofar, EventCell(e));
    PlusEmpty(sofar);
    PlusEmpty(EventCell(e));
    assert Plus(sofar, EventCell(e)).requests > 0 by { PlusRequests(sofar, EventCell(e)); }
  }

  lemma PlusRequests(a: AggCell, b: AggCell)
    ensures Plus(a, b).requests == a.requests + b.requests
  {
  }

  lemma AddedToEmpty(es: seq<Event>, cells: seq<Row<Stored>>)
    requires Added([], es, cells)
    ensures Agrees(cells, es)
  {
    hide CellFor, Sorted;
    forall key
      ensures Get(cells, key) == ExpectedCell(es, key)
    {
      assert Get(cells, key) == AddedCell([], es, key);
    }
  }

  lemma AddedNothing(cells: seq<Row<Stored>>)
    requires Sorted(cells)
    ensures Added(cells, [], cells)
  {
  }

  // ---------------------------------------------------------------------------
  // Backfill

  /** Where a scan of the raw rows has got to: past the first `idx` rows, of which
      `lastKey` names the last. */
  ghost predicate ScannedTo(rows: seq<Row<Raw>>, lastKey: Option<string>, idx: nat) {
    && idx <= |rows|
    && match lastKey
       case None => idx == 0
       case Some(key) => idx > 0 && rows[idx - 1].key == key
  }

  /** One read transaction: up to `batchSize` decodable events strictly after `lastKey`,
      stepping over rows that do not decode. */
  method ReadChunk(rows: seq<Row<Raw>>, lastKey: Option<string>, batchSize: nat, ghost idx: nat)
    returns (batch: seq<Event>, lastKey': Option<string>, ghost idx': nat)
    requires Sorted(rows) && ScannedTo(rows, lastKey, idx) && batchSize > 0
    ensures idx <= idx' && ScannedTo(rows, lastKey', idx')
    ensures batch == Decodable(rows[idx..idx']) && |batch| <= batchSize
    ensures |batch| < batchSize ==> idx' == |rows|
    ensures batch != [] ==> idx < idx'
  {
    hide Less, Decodable, Sorted;
    batch, lastKey' := [], lastKey;
    var i := 0;
    if lastKey.Some? {
      i := Seek(rows, lastKey.value);
      SeekExact(rows, i, idx - 1);
      if i < |rows| && rows[i].key == lastKey.value {
        i := i + 1;
      }
    }
    idx' := idx;
    NoneDecodable(rows[idx..i]);
    while i < |rows| && |batch| < batchSize
      invariant idx <= i <= |rows| && idx' == i && ScannedTo(rows, lastKey', i)
      invariant batch == Decodable(rows[idx..i]) && |batch| <= batchSize
    {
      DecodableNext(rows, idx, i);
      if rows[i].val.Decoded? {
        batch := batch + [rows[i].val.event];
      }
      lastKey' := Some(rows[i].key);
      i := i + 1;
      idx' := i;
    }
  }

  /** One write transaction. */
  method FlushBatch(cells: seq<Row<Stored>>, batch: seq<Event>, ghost cells0: seq<Row<Stored>>, ghost es: seq<Event>)
    returns (cells': seq<Row<Stored>>)
    requires Added(cells0, es, cells)
    ensures Added(cells0, es + batch, cells')
  {
    hide Get, AddedCell, Less;
    cells' := cells;
    var i := 0;
    assert es + batch[..0] == es;
    while i < |batch|
      invariant i <= |batch| && Added(cells0, es + batch[..i], cells')
    {
      ghost var was := cells';
      cells' := BumpAgg(cells', batch[i]);
      AddedOneMore(cells0, es + batch[..i], was, batch[i], cells');
      assert es + batch[..i + 1] == es + batch[..i] + [batch[i]];
      i := i + 1;
    }
    assert batch[..i] == batch;
  }

  /** Chunk by chunk until a chunk brings no event. */
  method BackfillRows(rows: seq<Row<Raw>>, cells: seq<Row<Stored>>, batchSize: nat)
    returns (cells': seq<Row<Stored>>, processed: nat)
    requires Sorted(rows) && Sorted(cells) && batchSize > 0
    ensures Added(cells, Decodable(rows), cells') && processed == |Decodable(rows)|
  {
    hide Added, Less, Sorted, Decodable;
    ghost var idx := 0;
    var lastKey: Option<string> := None;
    cells', processed := cells, 0;
    AddedNothing(cells);
    NoneDecodable(rows[..0]);
    while true
      invariant ScannedTo(rows, lastKey, idx)
      invariant Added(cells, Decodable(rows[..idx]), cells') && processed == |Decodable(rows[..idx])|
      decreases |rows| - idx
    {
      var batch, lastKey', idx' := ReadChunk(rows, lastKey, batchSize, idx);
      ghost var es := Decodable(rows[..idx]);
      assert rows[..idx'] == rows[..idx] + rows[idx..idx'];
      DecodableAppend(rows[..idx], rows[idx..idx']);
      if batch == [] {
        assert rows[..idx'] == rows;
        assert es + [] == es;
        break;
      }
      cells' := FlushBatch(cells', batch, cells, es);
      processed := processed + |batch|;
      lastKey, idx := lastKey', idx';
    }
  }

  class UsageStore {
    var events: seq<Row<Raw>>
    var cells: seq<Row<Stored>>
    var built: bool

    constructor ()
      ensures events == [] && cells == [] && !built
    {
      events, cells, built := [], [], false;
    }

    ghost predicate Valid()
      reads this
    {
      Sorted(events) && Sorted(cells)
    }

    /** The index agrees with the raw events. */
    ghost predicate Indexed()
      reads this
    {
      Agrees(cells, Decodable(events))
    }

    /** `Record`: raw detail and hourly cell in one transaction. `rowKey` carries a
        fresh UUID, so no row has it yet. */
    method Record(e: Event, rowKey: string, now: nat) returns (ghost a: seq<Event>, ghost b: seq<Event>)
      requires Valid() && Get(events, rowKey) == None
      modifies this`events, this`cells
      ensures Valid() && (old(Indexed()) ==> Indexed())
      ensures forall key ::
        Get(events, key) == if key == rowKey then Some(Decoded(Normalized(e, now))) else old(Get(events, key))
      ensures old(Decodable(events)) == a + b && Decodable(events) == a + [Normalized(e, now)] + b
      ensures Bumped(old(cells), Normalized(e, now), cells)
    {
      hide Less, Sorted, Agrees, Get;
      var event := Normalized(e, now);
      var i := Seek(events, rowKey);
      FreshPosition(events, i, rowKey);
      var row := Row(rowKey, Decoded(event));
      ghost var before := events;
      PutSorted(before, i, rowKey, Decoded(event));
      forall key
        ensures Get(PutAt(before, i, rowKey, Decoded(event)), key)
             == if key == rowKey then Some(Decoded(event)) else Get(before, key)
      {
        PutGet(before, i, rowKey, Decoded(event), key);
      }
      events := events[..i] + [row] + events[i..];
      a, b := Decodable(before[..i]), Decodable(before[i..]);
      assert before == before[..i] + before[i..];
      DecodableAppend(before[..i], before[i..]);
      DecodableAppend(before[..i] + [row], before[i..]);
      DecodableAppend(before[..i], [row]);
      DecodableOne(row);
      ghost var cells0 := cells;
      cells := BumpAgg(cells, event);
      if Agrees(cells0, a + b) {
        BumpKeepsAgreement(cells0, a, b, event, cells);
      }
    }

    /** `BackfillUsageAgg`: counts every decodable raw event in exactly once, whatever
        the batch size and the undecodable rows, and does nothing once marked built. */
    method Backfill(batchSize: nat) returns (processed: nat)
      requires Valid() && batchSize > 0
      modifies this`cells, this`built
      ensures Valid() && built
      ensures old(built) ==> cells == old(cells) && processed == 0
      ensures !old(built) ==> Added(old(cells), Decodable(events), cells) && processed == |Decodable(events)|
      ensures !old(built) && old(cells) == [] ==> Indexed()
    {
      if built {
        return 0;
      }
      ghost var cells0 := cells;
      cells, processed := BackfillRows(events, cells, batchSize);
      built := true;
      if cells0 == [] {
        AddedToEmpty(Decodable(events), cells);
      }
    }
  }

  /** A backfill cut short after `m` events and run again from the start, with the
      marker never written, gives the right index exactly when nothing had been
      flushed: whatever was, is counted twice. */
  lemma RerunAfterCrash(es: seq<Event>, m: nat, cells1: seq<Row<Stored>>, cells2: seq<Row<Stored>>)
    requires m <= |es| && Added([], es[..m], cells1) && Added(cells1, es, cells2)
    ensures Agrees(cells2, es) <==> m == 0
  {
    hide EventKey, Sorted;
    if m == 0 {
      forall key
        ensures Get(cells2, key) == ExpectedCell(es, key)
      {
        assert Get(cells1, key) == AddedCell([], [], key);
        assert Get(cells2, key) == AddedCell(cells1, es, key);
      }
    } else {
      var key := EventKey(es[0]);
      assert es[..m][0] == es[0];
      assert Get(cells1, key) == AddedCell([], es[..m], key);
      assert Get(cells2, key) == AddedCell(cells1, es, key);
      assert CellFor(es[..m], key).requests >= 1;
      assert Get(cells2, key) != ExpectedCell(es, key);
    }
  }

  lemma FreshPosition<V>(rows: seq<Row<V>>, i: nat, key: string)
    requires Sorted(rows) && SeekPosition(rows, i, key) && Get(rows, key) == None
    ensures i < |rows| ==> rows[i].key != key
  {
    GetFinds(rows, key);
  }
}

/** The trace ring as a value: a circular list of ids beside a map from id to record. What
    the map and the backward walk hold after any history of records, and exactly when that
    is the last N of them. */
module TraceRing {
  import Modular

  /** A trace record; its other columns are `meta`. */
  datatype TraceRecord = TraceRecord(id: string, requestBody: string, responseBody: string, meta: string)

  datatype Ring = Ring(keys: seq<string>, head: nat, records: map<string, TraceRecord>)

  predicate WellFormed(s: Ring) { s.head < |s.keys| }

  function EmptyRing(n: nat): Ring { Ring(seq(n, _ => ""), 0, map[]) }

  function ClipBody(body: string, max: int): string { if 0 < max < |body| then body[..max] else body }

  /** Bodies are cut to the configured size. */
  function Clip(r: TraceRecord, max: int): TraceRecord {
    r.(requestBody := ClipBody(r.requestBody, max), responseBody := ClipBody(r.responseBody, max))
  }

  /** A body keeps its first `max` characters, all of them without a limit; nothing else
      of the record is touched. */
  lemma ClipMeans(r: TraceRecord, max: int)
    ensures var c := Clip(r, max);
            && c.id == r.id && c.meta == r.meta
            && c.requestBody <= r.requestBody && c.responseBody <= r.responseBody
            && |c.requestBody| == (if max <= 0 || |r.requestBody| <= max then |r.requestBody| else max)
            && |c.responseBody| == (if max <= 0 || |r.responseBody| <= max then |r.responseBody| else max)
  {
  }

  /** `Record`: store, drop what the slot named before, take the slot, move on. */
  function RecordStep(s: Ring, r: TraceRecord): Ring
    requires WellFormed(s)
  {
    var stored := s.records[r.id := r];
    var victim := s.keys[s.head];
    Ring(s.keys[s.head := r.id], (s.head + 1) % |s.keys|, if victim != "" then stored - {victim} else stored)
  }

  /** The slot `i` steps back from the last one taken. */
  function SlotBack(head: nat, n: nat, i: nat): (slot: nat)
    requires n > 0
    ensures slot < n
  {
    SlotBefore(LastSlot(head, n), n, i)
  }

  function LastSlot(head: nat, n: nat): (slot: nat)
    requires n > 0
    ensures slot < n
  {
    (head - 1 + n) % n
  }

  function SlotBefore(start: nat, n: nat, i: nat): (slot: nat)
    requires n > 0
    ensures slot < n
  {
    (start - i + n) % n
  }

  /** The backward walk of `List` from step `i` on. */
  function WalkFrom(s: Ring, i: nat, needed: nat): seq<string>
    requires WellFormed(s)
    decreases |s.keys| - i
  {
    var n := |s.keys|;
    if i >= needed || i >= n then []
    else
      var key := s.keys[SlotBack(s.head, n, i)];
      if key == "" then [] else [key] + WalkFrom(s, i + 1, needed)
  }

  /** The records the map still has for these ids. */
  function Found(keys: seq<string>, records: map<string, TraceRecord>): seq<TraceRecord> {
    if keys == [] then []
    else (if keys[0] in records then [records[keys[0]]] else []) + Found(keys[1..], records)
  }

  function CutPage(found: seq<TraceRecord>, offset: nat, limit: nat): seq<TraceRecord> {
    if offset >= |found| then []
    else if offset + limit <= |found| then found[offset..offset + limit]
    else found[offset..]
  }

  lemma SliceGrows<T>(s: seq<T>, from: nat, i: nat)
    requires from <= i < |s|
    ensures s[from..i + 1] == s[from..i] + [s[i]]
  {
  }

  /** The part of a page of `List` that comes from memory. */
  function MemoryPage(s: Ring, offset: nat, limit: nat): seq<TraceRecord>
    requires WellFormed(s)
  {
    CutPage(Found(WalkFrom(s, 0, offset + limit), s.records), offset, limit)
  }

  // ---------------------------------------------------------------------------
  // Histories

  ghost function After(n: nat, h: seq<TraceRecord>): (s: Ring)
    requires n > 0
    ensures |s.keys| == n && s.head == |h| % n
  {
    if h == [] then EmptyRing(n)
    else
      Modular.ModSuccessor(|h| - 1, n);
      var s := After(n, h[..|h| - 1]);
      assert (s.head + 1) % n == |h| % n by {
        Modular.ModSuccessor(s.head, n);
        Modular.ModSmall(s.head, n);
      }
      RecordStep(s, h[|h| - 1])
  }

  /** Where the last `n` records start. */
  function Start(n: nat, h: seq<TraceRecord>): nat { if |h| <= n then 0 else |h| - n }

  function Window(n: nat, h: seq<TraceRecord>): seq<TraceRecord> { h[Start(n, h)..] }

  function Reversed(w: seq<TraceRecord>): (r: seq<TraceRecord>)
    ensures |r| == |w|
  {
    seq(|w|, i requires 0 <= i < |w| => w[|w| - 1 - i])
  }

  function Ids(w: seq<TraceRecord>): (r: seq<string>)
    ensures |r| == |w|
  {
    seq(|w|, i requires 0 <= i < |w| => w[i].id)
  }

  /** Each id with its latest record. */
  function ById(w: seq<TraceRecord>): map<string, TraceRecord> {
    if w == [] then map[] else ById(w[..|w| - 1])[w[|w| - 1].id := w[|w| - 1]]
  }

  /** The ring shows exactly the last `n` records: the map has each of their ids with its
      latest record and nothing else, and the walk lists the ids newest first. */
  ghost predicate Faithful(n: nat, h: seq<TraceRecord>)
    requires n > 0
  {
    var s := After(n, h);
    s.records == ById(Window(n, h)) && WalkFrom(s, 0, n) == Ids(Reversed(Window(n, h)))
  }

  // ---------------------------------------------------------------------------
  // Slots

  lemma {:induction false} SlotsAre(n: nat, h: seq<TraceRecord>)
    requires n > 0
    ensures forall p :: Start(n, h) <= p < |h| ==> After(n, h).keys[p % n] == h[p].id
    ensures forall j :: |h| <= j < n ==> After(n, h).keys[j] == ""
  {
    if h != [] {
      var g, last := h[..|h| - 1], |h| - 1;
      SlotsAre(n, g);
      var s := After(n, g);
      forall p | Start(n, h) <= p < |h|
        ensures After(n, h).keys[p % n] == h[p].id
      {
        if p < last {
          SlotsApart(p, last, n);
          assert g[p] == h[p];
        }
      }
      if last < n {
        Modular.ModSmall(last, n);
      }
    }
  }

  lemma SlotsApart(p: nat, q: nat, n: nat)
    requires p < q < p + n
    ensures p % n != q % n
  {
    var a, b := p / n, q / n;
    assert p == a * n + p % n && q == b * n + q % n;
    if p % n == q % n {
      if a < b {
        Modular.ScaledGap(a, b, n);
      } else if b < a {
        Modular.ScaledGap(b, a, n);
      }
    }
  }

  /** The slot about to be taken names the record `n` calls ago. */
  lemma VictimIs(n: nat, h: seq<TraceRecord>)
    requires n > 0
    ensures After(n, h).keys[|h| % n] == if |h| < n then "" else h[|h| - n].id
  {
    SlotsAre(n, h);
    if |h| < n {
      Modular.ModSmall(|h|, n);
    } else {
      Modular.PeriodicMod(|h| - n, n);
    }
  }

  // ---------------------------------------------------------------------------
  // The map

  ghost predicate Newest(h: seq<TraceRecord>, p: nat) {
    p < |h| && forall q :: p < q < |h| ==> h[q].id != h[p].id
  }

  /** A record with the same id has left the ring since `p` was stored, and took it along. */
  ghost predicate Dropped(n: nat, h: seq<TraceRecord>, p: nat)
    requires p < |h|
  {
    exists r :: 0 <= r < |h| && p - n <= r < |h| - n && h[r].id == h[p].id && h[r].id != ""
  }

  lemma {:induction false} RecordsOnlySeen(n: nat, h: seq<TraceRecord>, id: string)
    requires n > 0 && forall q :: 0 <= q < |h| ==> h[q].id != id
    ensures id !in After(n, h).records
  {
    if h != [] {
      RecordsOnlySeen(n, h[..|h| - 1], id);
    }
  }

  /** The id that the last record of `h` pushes out. */
  predicate PushedOut(n: nat, h: seq<TraceRecord>, id: string) {
    |h| > n && h[|h| - 1 - n].id == id && id != ""
  }

  lemma LastStep(n: nat, h: seq<TraceRecord>, id: string)
    requires n > 0 && h != []
    ensures var x, before, now := h[|h| - 1], After(n, h[..|h| - 1]).records, After(n, h).records;
            (id in now <==> (id == x.id || id in before) && !PushedOut(n, h, id)) &&
            (id in now ==> now[id] == if id == x.id then x else before[id])
  {
    VictimIs(n, h[..|h| - 1]);
  }

  lemma DroppedStep(n: nat, h: seq<TraceRecord>, p: nat)
    requires n > 0 && p < |h|
    ensures p == |h| - 1 ==> (Dropped(n, h, p) <==> PushedOut(n, h, h[p].id))
    ensures p < |h| - 1 ==> (Dropped(n, h, p) <==> Dropped(n, h[..|h| - 1], p) || PushedOut(n, h, h[p].id))
  {
    var g := h[..|h| - 1];
    if PushedOut(n, h, h[p].id) {
      assert Dropped(n, h, p);
    }
    if p < |g| && Dropped(n, g, p) {
      var r :| 0 <= r < |g| && p - n <= r < |g| - n && g[r].id == g[p].id && g[r].id != "";
      assert h[r].id == h[p].id;
    }
    if Dropped(n, h, p) && !PushedOut(n, h, h[p].id) {
      var r :| 0 <= r < |h| && p - n <= r < |h| - n && h[r].id == h[p].id && h[r].id != "";
      assert r < |g| - n && g[r] == h[r];
    }
  }

  /** For every history: an id that was seen is in the map exactly when no earlier record
      with that id left the ring after its latest one was stored. */
  lemma {:induction false} RecordsAt(n: nat, h: seq<TraceRecord>, p: nat)
    requires n > 0 && Newest(h, p)
    ensures h[p].id in After(n, h).records <==> !Dropped(n, h, p)
    ensures !Dropped(n, h, p) ==> After(n, h).records[h[p].id] == h[p]
  {
    hide After, Dropped, PushedOut;
    LastStep(n, h, h[p].id);
    DroppedStep(n, h, p);
    if p < |h| - 1 {
      var g := h[..|h| - 1];
      assert forall q :: p < q < |g| ==> g[q] == h[q];
      RecordsAt(n, g, p);
    }
  }

  lemma {:induction false} LatestOf(h: seq<TraceRecord>, q: nat) returns (p: nat)
    requires q < |h|
    ensures q <= p && Newest(h, p) && h[p].id == h[q].id
    decreases |h| - q
  {
    if next :| q < next < |h| && h[next].id == h[q].id {
      p := LatestOf(h, next);
    } else {
      p := q;
    }
  }

  lemma {:induction false} ByIdAt(w: seq<TraceRecord>, p: nat)
    requires Newest(w, p)
    ensures w[p].id in ById(w) && ById(w)[w[p].id] == w[p]
  {
    var last := |w| - 1;
    if p < last {
      var g := w[..last];
      assert forall q :: p < q < |g| ==> g[q] == w[q];
      ByIdAt(g, p);
    }
  }

  lemma {:induction false} ByIdOnlySeen(w: seq<TraceRecord>, id: string)
    requires id in ById(w)
    ensures exists q :: 0 <= q < |w| && w[q].id == id
  {
    var last := |w| - 1;
    if w[last].id != id {
      ByIdOnlySeen(w[..last], id);
      var q :| 0 <= q < last && w[..last][q].id == id;
      assert w[q].id == id;
    }
  }

  // ---------------------------------------------------------------------------
  // The walk

  lemma SlotBackIs(head: nat, n: nat, i: nat)
    requires head < n && i < n
    ensures SlotBack(head, n, i) == if i < head then head - 1 - i else head - 1 - i + n
  {
    if head == 0 {
      Modular.ModSmall(n - 1, n);
    } else {
      Modular.PeriodicMod(head - 1, n);
      Modular.ModSmall(head - 1, n);
    }
    if i < head {
      Modular.PeriodicMod(head - 1 - i, n);
      Modular.ModSmall(head - 1 - i, n);
    } else {
      Modular.ModSmall(head - 1 - i + n, n);
      Modular.PeriodicMod(head - 1 - i + n, n);
    }
  }

  lemma WalkIndex(n: nat, len: nat, i: nat)
    requires i < n && i < len
    ensures SlotBack(len % n, n, i) == (len - 1 - i) % n
  {
    hide SlotBack;
    var a, head := len / n, len % n;
    SlotBackIs(head, n, i);
    if i < head {
      Modular.ModOfMultiplePlus(len - 1 - i, a, n, head - 1 - i);
    } else {
      Modular.Distribute(a - 1, 1, n);
      Modular.ModOfMultiplePlus(len - 1 - i, a - 1, n, head - 1 - i + n);
    }
  }

  predicate AllNamed(h: seq<TraceRecord>) { forall p :: 0 <= p < |h| ==> h[p].id != "" }

  lemma WindowFits(n: nat, h: seq<TraceRecord>)
    ensures |Window(n, h)| <= n
  {
  }

  lemma WalkDone(s: Ring, i: nat, needed: nat)
    requires WellFormed(s) && (i >= needed || i >= |s.keys|)
    ensures WalkFrom(s, i, needed) == []
  {
  }

  /** One turn of the walk, with what it has collected in front. */
  lemma WalkExtends(s: Ring, i: nat, needed: nat, sofar: seq<string>, key: string)
    requires WellFormed(s) && i < needed && i < |s.keys| && key == s.keys[SlotBack(s.head, |s.keys|, i)]
    ensures key == "" ==> sofar + WalkFrom(s, i, needed) == sofar
    ensures key != "" ==> sofar + WalkFrom(s, i, needed) == sofar + [key] + WalkFrom(s, i + 1, needed)
  {
    hide WalkFrom, SlotBack;
    WalkUnfold(s, i, needed);
  }

  lemma WalkEnds(s: Ring, i: nat, needed: nat, sofar: seq<string>)
    requires WellFormed(s)
    ensures i >= needed || i >= |s.keys| ==> sofar + WalkFrom(s, i, needed) == sofar
  {
    hide WalkFrom;
    if i >= needed || i >= |s.keys| {
      WalkDone(s, i, needed);
    }
  }

  /** With every id non-empty the walk lists the last records newest first, repeats and
      all, up to what was asked for. */
  lemma {:induction false} WalkIs(n: nat, h: seq<TraceRecord>, i: nat, needed: nat)
    requires n > 0 && AllNamed(h) && i <= |Window(n, h)|
    ensures WalkFrom(After(n, h), i, needed) == Ids(Reversed(Window(n, h)))[i..Reach(i, needed, |Window(n, h)|)]
    decreases n - i
  {
    hide After, Ids, Reversed, SlotBack, Window, WalkFrom, AllNamed;
    WindowFits(n, h);
    if i >= needed || i >= n {
      WalkDone(After(n, h), i, needed);
    } else {
      WalkStep(n, h, i);
      var all, len := Ids(Reversed(Window(n, h))), |Window(n, h)|;
      WalkUnfold(After(n, h), i, needed);
      if i < len {
        WalkIs(n, h, i + 1, needed);
        NamedWindow(n, h, i);
        var reach := Reach(i, needed, len);
        assert all[i..reach] == [all[i]] + all[i + 1..reach];
      }
    }
  }

  lemma NamedWindow(n: nat, h: seq<TraceRecord>, i: nat)
    requires AllNamed(h) && i < |Window(n, h)|
    ensures Ids(Reversed(Window(n, h)))[i] != ""
  {
  }

  lemma WalkUnfold(s: Ring, i: nat, needed: nat)
    requires WellFormed(s) && i < needed && i < |s.keys|
    ensures var key := s.keys[SlotBack(s.head, |s.keys|, i)];
            WalkFrom(s, i, needed) == if key == "" then [] else [key] + WalkFrom(s, i + 1, needed)
  {
  }

  /** Where a walk from step `i` ends. */
  function Reach(i: nat, needed: nat, len: nat): (r: nat)
    requires i <= len
    ensures i <= r <= len
  {
    if needed <= i then i else if needed <= len then needed else len
  }

  /** The slot looked at in step `i`. */
  lemma WalkStep(n: nat, h: seq<TraceRecord>, i: nat)
    requires n > 0 && i < n
    ensures var key := After(n, h).keys[SlotBack(|h| % n, n, i)];
            key == if i < |Window(n, h)| then Ids(Reversed(Window(n, h)))[i] else ""
  {
    hide After, SlotBack, Window, Ids, Reversed;
    SlotsAre(n, h);
    WindowAt(n, h, i);
    if i < |h| {
      WalkIndex(n, |h|, i);
    } else {
      Modular.ModSmall(|h|, n);
      SlotBackIs(|h|, n, i);
    }
  }

  lemma WindowAt(n: nat, h: seq<TraceRecord>, i: nat)
    requires n > 0 && i < n
    ensures i < |h| <==> i < |Window(n, h)|
    ensures i < |h| ==> |h| - 1 - i >= Start(n, h) && Ids(Reversed(Window(n, h)))[i] == h[|h| - 1 - i].id
  {
  }

  // ---------------------------------------------------------------------------
  // Faithful exactly when

  /** No id comes back within `n` calls of a record that has since left the ring. */
  predicate NoReuse(n: nat, h: seq<TraceRecord>) {
    forall r, p :: 0 <= r < p < |h| && p <= r + n < |h| ==> h[r].id != h[p].id
  }

  lemma RecordsFaithful(n: nat, h: seq<TraceRecord>)
    requires n > 0 && AllNamed(h) && NoReuse(n, h)
    ensures After(n, h).records == ById(Window(n, h))
  {
    var m, live := After(n, h).records, ById(Window(n, h));
    forall id
      ensures id in m <==> id in live
      ensures id in m ==> m[id] == live[id]
    {
      if q :| 0 <= q < |h| && h[q].id == id {
        var p := LatestOf(h, q);
        SeenFaithful(n, h, p);
      } else {
        RecordsOnlySeen(n, h, id);
        WindowOnlySeen(n, h, id);
      }
    }
  }

  lemma WindowOnlySeen(n: nat, h: seq<TraceRecord>, id: string)
    requires forall q :: Start(n, h) <= q < |h| ==> h[q].id != id
    ensures id !in ById(Window(n, h))
  {
    var w := Window(n, h);
    assert forall k :: 0 <= k < |w| ==> w[k] == h[k + Start(n, h)];
    if id in ById(w) {
      ByIdOnlySeen(w, id);
    }
  }

  lemma NewestInWindow(n: nat, h: seq<TraceRecord>, p: nat)
    requires Newest(h, p) && p >= Start(n, h)
    ensures h[p].id in ById(Window(n, h)) && ById(Window(n, h))[h[p].id] == h[p]
  {
    var w, start := Window(n, h), Start(n, h);
    assert forall k :: p - start < k < |w| ==> w[k] == h[k + start];
    ByIdAt(w, p - start);
  }

  lemma SeenFaithful(n: nat, h: seq<TraceRecord>, p: nat)
    requires n > 0 && AllNamed(h) && NoReuse(n, h) && Newest(h, p)
    ensures var m, live, id := After(n, h).records, ById(Window(n, h)), h[p].id;
            (id in m <==> id in live) && (id in m ==> m[id] == live[id])
  {
    hide After, ById;
    RecordsAt(n, h, p);
    if p >= Start(n, h) {
      LiveNotDropped(n, h, p);
      NewestInWindow(n, h, p);
    } else {
      assert Dropped(n, h, p);
      WindowOnlySeen(n, h, h[p].id);
    }
  }

  lemma LiveNotDropped(n: nat, h: seq<TraceRecord>, p: nat)
    requires n > 0 && NoReuse(n, h) && Start(n, h) <= p < |h|
    ensures !Dropped(n, h, p)
  {
  }

  lemma FaithfulWhenNoReuse(n: nat, h: seq<TraceRecord>)
    requires n > 0 && AllNamed(h) && NoReuse(n, h)
    ensures Faithful(n, h)
  {
    RecordsFaithful(n, h);
    WalkIs(n, h, 0, n);
  }

  /** An empty id hides everything recorded before it from the walk. */
  lemma UnnamedHidesAll(n: nat, h: seq<TraceRecord>)
    requires n > 0 && h != [] && h[|h| - 1].id == ""
    ensures WalkFrom(After(n, h), 0, n) == [] && !Faithful(n, h)
  {
    SlotsAre(n, h);
    WalkIndex(n, |h|, 0);
    assert |Ids(Reversed(Window(n, h)))| > 0;
  }

  /** An id that comes back within `n` calls is lost when its first record leaves. */
  lemma ReuseLoses(n: nat, h: seq<TraceRecord>, r: nat, p: nat)
    requires n > 0 && r < p <= r + n && |h| == r + n + 1 && h[r].id == h[p].id && h[r].id != ""
    ensures h[p].id !in After(n, h).records && !Faithful(n, h)
  {
    var last := LatestOf(h, p);
    RecordsAt(n, h, last);
    assert Dropped(n, h, last);
    NewestInWindow(n, h, last);
  }

  /** The ring shows exactly the last `n` records after every call of a history if and only
      if no id is empty and none comes back within `n` calls of a record that has since
      left the ring. */
  lemma FaithfulIff(n: nat, h: seq<TraceRecord>)
    requires n > 0
    ensures (forall l :: 0 <= l <= |h| ==> Faithful(n, h[..l])) <==> AllNamed(h) && NoReuse(n, h)
  {
    if AllNamed(h) && NoReuse(n, h) {
      forall l | 0 <= l <= |h|
        ensures Faithful(n, h[..l])
      {
        FaithfulWhenNoReuse(n, h[..l]);
      }
    } else if p :| 0 <= p < |h| && h[p].id == "" {
      UnnamedHidesAll(n, h[..p + 1]);
    } else {
      var r, p :| 0 <= r < p < |h| && p <= r + n < |h| && h[r].id == h[p].id;
      ReuseLoses(n, h[..r + n + 1], r, p);
    }
  }

  /** Distinct non-empty ids in particular. */
  predicate DistinctIds(h: seq<TraceRecord>) {
    AllNamed(h) && forall r, p :: 0 <= r < p < |h| ==> h[r].id != h[p].id
  }

  lemma DistinctFaithful(n: nat, h: seq<TraceRecord>)
    requires n > 0 && DistinctIds(h)
    ensures Faithful(n, h)
  {
    FaithfulWhenNoReuse(n, h);
  }

  lemma {:induction false} FoundAll(w: seq<TraceRecord>, all: seq<TraceRecord>)
    requires DistinctIds(all) && forall i :: 0 <= i < |w| ==> w[i] in all
    ensures Found(Ids(w), ById(all)) == w
  {
    if w != [] {
      var p :| 0 <= p < |all| && all[p] == w[0];
      ByIdAt(all, p);
      FoundAll(w[1..], all);
      assert Ids(w)[1..] == Ids(w[1..]);
      assert w == [w[0]] + w[1..];
    }
  }

  /** The `i`-th record of a page is the one `offset + i` back from the newest; the page has
      `limit` of them, or as many as are left of the last `n`. */
  ghost predicate PageOf(n: nat, h: seq<TraceRecord>, offset: nat, limit: nat, page: seq<TraceRecord>) {
    var reach := if |h| < n then |h| else n;
    && |page| == (if reach <= offset then 0 else if reach - offset < limit then reach - offset else limit)
    && forall i :: 0 <= i < |page| ==> page[i] == h[|h| - 1 - (offset + i)]
  }

  lemma CutIsPage(n: nat, h: seq<TraceRecord>, offset: nat, limit: nat)
    ensures PageOf(n, h, offset, limit, CutPage(Reversed(Window(n, h)), offset, limit))
  {
    var shown := Reversed(Window(n, h));
    forall i | 0 <= i < |shown|
      ensures shown[i] == h[|h| - 1 - i]
    {
      NewestAt(n, h, i);
    }
    hide Reversed, Window, Start;
    var page := CutPage(shown, offset, limit);
    forall i | 0 <= i < |page|
      ensures page[i] == shown[offset + i]
    {
    }
    WindowLength(n, h);
  }

  lemma NewestAt(n: nat, h: seq<TraceRecord>, i: nat)
    requires i < |Window(n, h)|
    ensures Reversed(Window(n, h))[i] == h[|h| - 1 - i]
  {
  }

  lemma WindowLength(n: nat, h: seq<TraceRecord>)
    ensures |Window(n, h)| == if |h| < n then |h| else n
  {
  }

  /** With distinct ids a page served from memory is the run of records that starts
      `offset` back from the newest, newest first, as far as the ring reaches. */
  lemma PageIs(n: nat, h: seq<TraceRecord>, offset: nat, limit: nat)
    requires n > 0 && DistinctIds(h)
    ensures MemoryPage(After(n, h), offset, limit) == CutPage(Reversed(Window(n, h)), offset, limit)
    ensures PageOf(n, h, offset, limit, MemoryPage(After(n, h), offset, limit))
  {
    hide After, Found, ById, WalkFrom, PageOf;
    CutIsPage(n, h, offset, limit);
    var needed := offset + limit;
    var w, shown := Window(n, h), Reversed(Window(n, h));
    var reach := Reach(0, needed, |w|);
    WalkIs(n, h, 0, needed);
    RecordsFaithful(n, h);
    assert Ids(shown)[0..reach] == Ids(shown[..reach]);
    assert forall i :: 0 <= i < |shown| ==> shown[i] == w[|w| - 1 - i];
    FoundAll(shown[..reach], w);
  }
}

/** The store that keeps the ring up to date. */
module TraceStores {
  import opened Wrappers
  import opened TraceRing

  class TraceStore {
    const enabled: bool
    const maxBodySize: int
    const keys: array<string>
    var head: nat
    var ring: map<string, TraceRecord>
    var totalRecords: nat
    /** Every record taken so far, bodies cut. */
    ghost var history: seq<TraceRecord>

    ghost function State(): Ring
      reads this, keys
    {
      Ring(keys[..], head, ring)
    }

    ghost predicate Valid()
      reads this, keys
    {
      enabled && keys.Length > 0 ==> State() == After(keys.Length, history) && totalRecords == |history|
    }

    /** `New`. A disabled store has no buffer. */
    constructor (enabled: bool, ringBufferSize: nat, maxBodySize: int)
      ensures Valid() && fresh(keys) && history == [] && this.enabled == enabled
      ensures enabled ==> keys.Length == ringBufferSize
    {
      this.enabled := enabled;
      this.maxBodySize := maxBodySize;
      keys := new string[if enabled then ringBufferSize else 0](_ => "");
      head := 0;
      ring := map[];
      totalRecords := 0;
      history := [];
      new;
      assert keys[..] == EmptyRing(keys.Length).keys;
    }

    /** `Record`. A ring without slots makes the program stop here. */
    method Record(record: Option<TraceRecord>)
      requires Valid() && (enabled && record.Some? ==> keys.Length > 0)
      modifies this, keys
      ensures Valid()
      ensures !enabled || record.None? ==> history == old(history) && State() == old(State())
      ensures enabled && record.Some? ==>
        history == old(history) + [Clip(record.value, maxBodySize)] &&
        State() == RecordStep(old(State()), Clip(record.value, maxBodySize))
    {
      if !enabled || record.None? {
        return;
      }
      var kept := record.value;
      if maxBodySize > 0 {
        if |kept.requestBody| > maxBodySize {
          kept := kept.(requestBody := kept.requestBody[..maxBodySize]);
        }
        if |kept.responseBody| > maxBodySize {
          kept := kept.(responseBody := kept.responseBody[..maxBodySize]);
        }
      }
      ring := ring[kept.id := kept];
      if keys[head] != "" {
        ring := ring - {keys[head]};
      }
      keys[head] := kept.id;
      head := (head + 1) % keys.Length;
      totalRecords := totalRecords + 1;
      assert (history + [kept])[..|history|] == history;
      history := history + [kept];
    }

    /** The in-memory half of `List`: the walk under the lock, the lookups, and the page. */
    method List(offset: int, limit: int) returns (results: seq<TraceRecord>)
      requires Valid() && (enabled && limit > 0 ==> keys.Length > 0)
      ensures !enabled || limit <= 0 ==> results == []
      ensures enabled && limit > 0 ==> results == MemoryPage(State(), if offset < 0 then 0 else offset, limit)
      ensures enabled && limit > 0 && DistinctIds(history) ==>
        PageOf(keys.Length, history, if offset < 0 then 0 else offset, limit, results)
    {
      if !enabled || limit <= 0 {
        return [];
      }
      assert WellFormed(State());
      hide Valid, After, WalkFrom, Found, CutPage, PageOf, DistinctIds, WellFormed;
      var skip := if offset < 0 then 0 else offset;
      var memKeys := Walk(skip + limit);
      var memResults := Lookup(memKeys);
      results := Slice(memResults, skip, limit);
      if DistinctIds(history) {
        ShowsPage(skip, limit);
      }
    }

    lemma ShowsPage(offset: nat, limit: nat)
      requires Valid() && enabled && keys.Length > 0 && DistinctIds(history)
      ensures PageOf(keys.Length, history, offset, limit, MemoryPage(State(), offset, limit))
    {
      PageIs(keys.Length, history, offset, limit);
    }

    /** The page loop of `List`. */
    static method Slice(memResults: seq<TraceRecord>, offset: nat, limit: nat) returns (results: seq<TraceRecord>)
      ensures results == CutPage(memResults, offset, limit)
    {
      if offset >= |memResults| {
        return [];
      }
      results := [];
      var i := offset;
      while i < |memResults| && |results| < limit
        invariant offset <= i <= |memResults| && |results| == i - offset <= limit
        invariant results == memResults[offset..i]
      {
        SliceGrows(memResults, offset, i);
        results := results + [memResults[i]];
        i := i + 1;
      }
    }

    method Walk(totalNeeded: nat) returns (memKeys: seq<string>)
      requires Valid() && enabled && keys.Length > 0
      ensures memKeys == WalkFrom(State(), 0, totalNeeded)
    {
      assert WellFormed(State());
      hide WalkFrom, Valid, After, LastSlot, SlotBefore;
      memKeys := [];
      var n := keys.Length;
      var start := LastSlot(head, n);
      var i := 0;
      while i < totalNeeded && i < n
        invariant 0 <= i <= n
        invariant memKeys + WalkFrom(State(), i, totalNeeded) == WalkFrom(State(), 0, totalNeeded)
      {
        var key := keys[SlotBefore(start, n, i)];
        WalkExtends(State(), i, totalNeeded, memKeys, key);
        if key == "" {
          break;
        }
        memKeys := memKeys + [key];
        i := i + 1;
      }
      WalkEnds(State(), i, totalNeeded, memKeys);
    }

    method Lookup(memKeys: seq<string>) returns (memResults: seq<TraceRecord>)
      ensures memResults == Found(memKeys, ring)
    {
      memResults := [];
      for i := 0 to |memKeys|
        invariant memResults + Found(memKeys[i..], ring) == Found(memKeys, ring)
      {
        assert memKeys[i..][1..] == memKeys[i + 1..];
        if memKeys[i] in ring {
          memResults := memResults + [ring[memKeys[i]]];
        }
      }
    }
  }
}

/** The bounded table that remembers which key each client was given, and when.
    The pool keeps it as two maps with the same domain. */
module Affinity {
  import opened Clock

  const AFFINITY_TTL: int := 600_000_000_000        // 10 minutes
  const MAX_AFFINITY_ENTRIES: nat := 10000

  /** The two maps agree, never bind the empty name, point at one of `n` keys and
      stay bounded. */
  ghost predicate TableInv(bound: map<string, nat>, boundAt: map<string, Time>, n: nat) {
    && bound.Keys == boundAt.Keys
    && "" !in bound.Keys
    && |bound.Keys| <= MAX_AFFINITY_ENTRIES
    && InRange(bound, n)
  }

  predicate Idle(boundAt: map<string, Time>, client: string, now: Time) {
    client in boundAt && Sub(now, boundAt[client]) >= AFFINITY_TTL
  }

  ghost function Stale(boundAt: map<string, Time>, now: Time): set<string> {
    set c | c in boundAt.Keys && Idle(boundAt, c, now)
  }

  ghost predicate NotLater(boundAt: map<string, Time>, e: string, v: string) {
    e in boundAt && v in boundAt ==> boundAt[e] <= boundAt[v]
  }

  /** No evicted binding is later than a surviving one. */
  ghost predicate GoneAreOldest(boundAt: map<string, Time>, gone: set<string>) {
    forall e, v :: e in gone && v !in gone ==> NotLater(boundAt, e, v)
  }

  /** `gone` is a legal eviction from a full table: every idle binding, and past that
      only the oldest ones until there is room for one more. Go iterates maps in no
      particular order, so ties between equally old bindings are left open. */
  ghost predicate Evicts(boundAt: map<string, Time>, now: Time, gone: set<string>) {
    var stale := Stale(boundAt, now);
    && stale <= gone <= boundAt.Keys
    && |boundAt.Keys - gone| < MAX_AFFINITY_ENTRIES
    && (gone == stale || |boundAt.Keys - gone| == MAX_AFFINITY_ENTRIES - 1)
    && (|boundAt.Keys - stale| < MAX_AFFINITY_ENTRIES ==> gone == stale)
    && GoneAreOldest(boundAt, gone)
  }

  /** What binding `client` may evict: nothing unless it is new and the table full. */
  ghost predicate EvictionOk(boundAt: map<string, Time>, client: string, now: Time, gone: set<string>) {
    if client in boundAt || |boundAt| < MAX_AFFINITY_ENTRIES then gone == {}
    else Evicts(boundAt, now, gone)
  }

  /** A full table loses, before a new client is bound, every binding not renewed for ten
      minutes; any other only if it is among the oldest, to get down to 9999. */
  lemma EvictionMeans(boundAt: map<string, Time>, client: string, now: Time, gone: set<string>, c: string)
    requires EvictionOk(boundAt, client, now, gone) && c in boundAt
    ensures client in boundAt || |boundAt| < 10_000 ==> c !in gone
    ensures client !in boundAt && |boundAt| >= 10_000 && now - boundAt[c] >= 10 * MINUTE ==> c in gone
    ensures c in gone && now - boundAt[c] < 10 * MINUTE ==>
      |boundAt.Keys - gone| == 9_999 && forall v :: v in boundAt && v !in gone ==> boundAt[c] <= boundAt[v]
  {
    if client !in boundAt && |boundAt| >= 10_000 {
      assert c in Stale(boundAt, now) <==> now - boundAt[c] >= 10 * MINUTE;
    }
  }

  lemma StaleAreOldest(boundAt: map<string, Time>, now: Time)
    ensures GoneAreOldest(boundAt, Stale(boundAt, now))
  {
  }

  lemma EvictOldest(boundAt: map<string, Time>, gone: set<string>, oldest: string)
    requires GoneAreOldest(boundAt, gone) && oldest in boundAt
    requires forall v :: v in boundAt - gone ==> boundAt[oldest] <= boundAt[v]
    ensures GoneAreOldest(boundAt, gone + {oldest})
  {
  }

  lemma OldestExists(boundAt: map<string, Time>, names: set<string>) returns (oldest: string)
    requires names != {} && names <= boundAt.Keys
    ensures oldest in names && forall v :: v in names ==> boundAt[oldest] <= boundAt[v]
    decreases |names|
  {
    oldest :| oldest in names;
    if names != {oldest} {
      var other := OldestExists(boundAt, names - {oldest});
      if boundAt[other] < boundAt[oldest] {
        oldest := other;
      }
    }
  }

  lemma EvictMore(boundAt: map<string, Time>, now: Time, gone: set<string>) returns (gone': set<string>)
    requires Stale(boundAt, now) <= gone <= boundAt.Keys && GoneAreOldest(boundAt, gone)
    requires gone == Stale(boundAt, now) || |boundAt.Keys - gone| >= MAX_AFFINITY_ENTRIES - 1
    requires |boundAt.Keys - Stale(boundAt, now)| < MAX_AFFINITY_ENTRIES ==> gone == Stale(boundAt, now)
    ensures Evicts(boundAt, now, gone')
    decreases |boundAt.Keys - gone|
  {
    hide Idle, NotLater, GoneAreOldest, Stale;
    gone' := gone;
    if |boundAt.Keys - gone| >= MAX_AFFINITY_ENTRIES {
      var oldest := OldestExists(boundAt, boundAt.Keys - gone);
      EvictOldest(boundAt, gone, oldest);
      assert boundAt.Keys - gone == (boundAt.Keys - (gone + {oldest})) + {oldest};
      gone' := EvictMore(boundAt, now, gone + {oldest});
    }
  }

  /** A client that is bound already evicts nothing. */
  lemma NothingToEvict(boundAt: map<string, Time>, client: string, now: Time)
    ensures client in boundAt ==> EvictionOk(boundAt, client, now, {})
  {
  }

  /** There is always a legal eviction. */
  lemma EvictionExists(boundAt: map<string, Time>, client: string, now: Time) returns (gone: set<string>)
    ensures EvictionOk(boundAt, client, now, gone)
  {
    gone := {};
    if client !in boundAt && |boundAt| >= MAX_AFFINITY_ENTRIES {
      StaleAreOldest(boundAt, now);
      gone := EvictMore(boundAt, now, Stale(boundAt, now));
    }
  }

  lemma MinusMinus<V>(m: map<string, V>, a: set<string>, b: set<string>)
    ensures (m - a) - b == m - (a + b)
  {
  }

  lemma MinusNone<V>(m: map<string, V>)
    ensures m - {} == m
  {
  }

  /** Oldest binding; "" when the table is empty. */
  method Oldest(boundAt: map<string, Time>) returns (oldest: string)
    requires "" !in boundAt
    ensures oldest == "" <==> boundAt == map[]
    ensures oldest != "" ==> oldest in boundAt
    ensures oldest != "" ==> forall v :: v in boundAt ==> boundAt[oldest] <= boundAt[v]
  {
    oldest := "";
    var names := boundAt.Keys;
    while names != {}
      invariant names <= boundAt.Keys
      invariant oldest == "" <==> names == boundAt.Keys
      invariant oldest != "" ==> oldest in boundAt
      invariant oldest != "" ==> forall v :: v in boundAt && v !in names ==> boundAt[oldest] <= boundAt[v]
      decreases names
    {
      var name :| name in names;
      names := names - {name};
      if oldest == "" || boundAt[name] < boundAt[oldest] {
        oldest := name;
      }
    }
  }

  /** First pass: every binding idle for the TTL goes. */
  method EvictIdle(bound: map<string, nat>, boundAt: map<string, Time>, now: Time)
    returns (bound': map<string, nat>, boundAt': map<string, Time>)
    ensures bound' == bound - Stale(boundAt, now)
    ensures boundAt' == boundAt - Stale(boundAt, now)
  {
    bound', boundAt' := bound, boundAt;
    var names := boundAt.Keys;
    ghost var stale, gone := Stale(boundAt, now), {};
    MinusNone(bound);
    MinusNone(boundAt);
    while names != {}
      invariant names <= boundAt.Keys && gone <= stale <= gone + names && gone !! names
      invariant bound' == bound - gone && boundAt' == boundAt - gone
      decreases names
    {
      var name :| name in names;
      names := names - {name};
      if Idle(boundAt', name, now) {
        MinusMinus(bound, gone, {name});
        MinusMinus(boundAt, gone, {name});
        bound', boundAt' := bound' - {name}, boundAt' - {name};
        gone := gone + {name};
      }
    }
    assert gone == stale;
  }

  /** Second pass: the oldest bindings go until there is room for one more. */
  method EvictStale(bound: map<string, nat>, boundAt: map<string, Time>, ghost client: string, now: Time)
    returns (bound': map<string, nat>, boundAt': map<string, Time>)
    requires bound.Keys == boundAt.Keys && "" !in boundAt && client !in bound.Keys
    ensures var gone := boundAt.Keys - boundAt'.Keys;
            EvictionOk(boundAt, client, now, gone) && bound' == bound - gone && boundAt' == boundAt - gone
  {
    hide Idle, NotLater, GoneAreOldest;
    MinusNone(bound);
    MinusNone(boundAt);
    ghost var gone := {};
    assert |bound| == |bound.Keys| == |boundAt.Keys| == |boundAt|;
    if |bound| < MAX_AFFINITY_ENTRIES {
      return bound, boundAt;
    }
    bound', boundAt' := EvictIdle(bound, boundAt, now);
    StaleAreOldest(boundAt, now);
    ghost var stale := Stale(boundAt, now);
    gone := stale;
    MinusKeys(bound, gone);
    MinusKeys(boundAt, gone);
    hide Stale;
    while |bound'| >= MAX_AFFINITY_ENTRIES
      invariant stale <= gone <= boundAt.Keys && GoneAreOldest(boundAt, gone)
      invariant bound' == bound - gone && boundAt' == boundAt - gone
      invariant |bound'| == |boundAt'| == |boundAt.Keys - gone|
      invariant gone == stale || |boundAt.Keys - gone| >= MAX_AFFINITY_ENTRIES - 1
      invariant |boundAt.Keys - stale| < MAX_AFFINITY_ENTRIES ==> gone == stale
      decreases |bound'|
    {
      var oldest := Oldest(boundAt');
      if oldest == "" {
        break;
      }
      EvictOldest(boundAt, gone, oldest);
      DropOne(bound, gone, oldest);
      DropOne(boundAt, gone, oldest);
      bound', boundAt' := bound' - {oldest}, boundAt' - {oldest};
      gone := gone + {oldest};
    }
    MinusKeys(boundAt, gone);
    assert gone == boundAt.Keys - boundAt'.Keys;
  }

  lemma MinusKeys<V>(m: map<string, V>, gone: set<string>)
    ensures (m - gone).Keys == m.Keys - gone && |m - gone| == |m.Keys - gone|
  {
    assert |m - gone| == |(m - gone).Keys|;
  }

  lemma DropOne<V>(m: map<string, V>, gone: set<string>, name: string)
    requires name in m && name !in gone
    ensures (m - gone) - {name} == m - (gone + {name})
    ensures |(m - gone) - {name}| == |m.Keys - (gone + {name})| == |m.Keys - gone| - 1
  {
    MinusMinus(m, gone, {name});
    MinusKeys(m, gone + {name});
    assert m.Keys - gone == (m.Keys - (gone + {name})) + {name};
  }

  lemma RebindKeys<V>(m: map<string, V>, gone: set<string>, client: string, v: V)
    ensures (m - gone)[client := v].Keys == (m.Keys - gone) + {client}
  {
  }

  lemma EvictionLeavesRoom(boundAt: map<string, Time>, client: string, now: Time, gone: set<string>)
    requires |boundAt.Keys| <= MAX_AFFINITY_ENTRIES && EvictionOk(boundAt, client, now, gone)
    ensures gone <= boundAt.Keys && client !in gone
    ensures |(boundAt.Keys - gone) + {client}| <= MAX_AFFINITY_ENTRIES
  {
    if client in boundAt.Keys {
      assert (boundAt.Keys - gone) + {client} == boundAt.Keys;
    } else if |boundAt.Keys| < MAX_AFFINITY_ENTRIES {
      assert boundAt.Keys - gone == boundAt.Keys;
    }
  }

  ghost predicate InRange(bound: map<string, nat>, n: nat) {
    forall c :: c in bound ==> bound[c] < n
  }

  lemma RebindInRange(bound: map<string, nat>, gone: set<string>, client: string, idx: nat, n: nat)
    requires idx < n && InRange(bound, n)
    ensures InRange((bound - gone)[client := idx], n)
  {
  }

  /** Binding a client after an eviction keeps the two maps in step, every index in
      range and the size within the limit. */
  lemma RebindKeepsTable(bound: map<string, nat>, boundAt: map<string, Time>, n: nat,
                         client: string, idx: nat, now: Time, gone: set<string>)
    requires TableInv(bound, boundAt, n) && client != "" && idx < n && EvictionOk(boundAt, client, now, gone)
    ensures TableInv((bound - gone)[client := idx], (boundAt - gone)[client := now], n)
    ensures gone == bound.Keys - (bound - gone)[client := idx].Keys
  {
    hide EvictionOk, InRange;
    EvictionLeavesRoom(boundAt, client, now, gone);
    RebindInRange(bound, gone, client, idx, n);
    RebindKeys(bound, gone, client, idx);
    RebindKeys(boundAt, gone, client, now);
    assert gone == bound.Keys - ((bound.Keys - gone) + {client});
  }
}

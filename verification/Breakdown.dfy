/** Totals broken down by a key of the cell: the map a report keeps up to date while it
    scans, the sorted listing made of it, and why the listing adds up to the whole. */
module Breakdowns {
  import opened AggKey
  import opened UsageQuery
  import opened Pricing
  import opened UsageTotals

  /** `usage.DimensionTotals`. */
  datatype DimensionTotals<+K> = DimensionTotals(key: K, totals: Totals)

  /** The sum over the selected visits with a given key. */
  function TotalAt<K(==)>(visits: seq<Visit>, table: CostTable, sel: Selector, keyOf: Cell -> K, key: K): Totals {
    if visits == [] then NO_TOTALS
    else
      var front, v := TotalAt(visits[..|visits| - 1], table, sel, keyOf, key), visits[|visits| - 1];
      if sel(v.cell) && keyOf(v.cell) == key then AddVisit(front, table, v) else front
  }

  ghost predicate Seen<K>(visits: seq<Visit>, sel: Selector, keyOf: Cell -> K, key: K) {
    exists i :: 0 <= i < |visits| && sel(visits[i].cell) && keyOf(visits[i].cell) == key
  }

  // ---------------------------------------------------------------------------
  // The map

  function TallyVisit<K>(m: map<K, Totals>, key: K, table: CostTable, v: Visit): map<K, Totals> {
    m[key := AddVisit(if key in m then m[key] else NO_TOTALS, table, v)]
  }

  ghost predicate Tallied<K(!new)>(m: map<K, Totals>, visits: seq<Visit>, table: CostTable, sel: Selector,
                                   keyOf: Cell -> K) {
    forall key ::
      && (key in m <==> Seen(visits, sel, keyOf, key))
      && (key in m ==> m[key] == TotalAt(visits, table, sel, keyOf, key))
  }

  lemma SeenStep<K>(visits: seq<Visit>, v: Visit, sel: Selector, keyOf: Cell -> K, key: K)
    ensures Seen(visits + [v], sel, keyOf, key)
         <==> Seen(visits, sel, keyOf, key) || (sel(v.cell) && keyOf(v.cell) == key)
  {
    var all := visits + [v];
    if sel(v.cell) && keyOf(v.cell) == key {
      assert all[|visits|] == v;
    }
    if Seen(visits, sel, keyOf, key) {
      var i :| 0 <= i < |visits| && sel(visits[i].cell) && keyOf(visits[i].cell) == key;
      assert all[i] == visits[i];
    }
  }

  lemma {:induction false} UnseenIsNothing<K>(visits: seq<Visit>, table: CostTable, sel: Selector, keyOf: Cell -> K,
                                              key: K)
    requires !Seen(visits, sel, keyOf, key)
    ensures TotalAt(visits, table, sel, keyOf, key) == NO_TOTALS
  {
    if visits != [] {
      var front, v := visits[..|visits| - 1], visits[|visits| - 1];
      assert visits == front + [v];
      SeenStep(front, v, sel, keyOf, key);
      UnseenIsNothing(front, table, sel, keyOf, key);
    }
  }

  lemma TallyKeeps<K(!new)>(m: map<K, Totals>, visits: seq<Visit>, v: Visit, table: CostTable, sel: Selector,
                            keyOf: Cell -> K)
    requires Tallied(m, visits, table, sel, keyOf)
    ensures Tallied(if sel(v.cell) then TallyVisit(m, keyOf(v.cell), table, v) else m, visits + [v], table, sel, keyOf)
  {
    hide AddVisit, Seen;
    var m' := if sel(v.cell) then TallyVisit(m, keyOf(v.cell), table, v) else m;
    forall key
      ensures key in m' <==> Seen(visits + [v], sel, keyOf, key)
      ensures key in m' ==> m'[key] == TotalAt(visits + [v], table, sel, keyOf, key)
    {
      SeenStep(visits, v, sel, keyOf, key);
      assert (visits + [v])[..|visits|] == visits;
      if key !in m {
        UnseenIsNothing(visits, table, sel, keyOf, key);
      }
    }
  }

  // ---------------------------------------------------------------------------
  // The listing

  ghost predicate StrictOrder<K(!new)>(lt: (K, K) -> bool) {
    && (forall a :: !lt(a, a))
    && (forall a, b, c :: lt(a, b) && lt(b, c) ==> lt(a, c))
    && (forall a, b :: lt(a, b) || lt(b, a) || a == b)
  }

  ghost predicate Ordered<K>(keys: seq<K>, lt: (K, K) -> bool) {
    forall i, j :: 0 <= i < j < |keys| ==> lt(keys[i], keys[j])
  }

  /** `sort.Slice` or `sort.Strings` on a list of distinct keys, one insertion. */
  method Insert<K(==, !new)>(keys: seq<K>, key: K, lt: (K, K) -> bool) returns (keys': seq<K>)
    requires StrictOrder(lt) && Ordered(keys, lt) && key !in keys
    ensures Ordered(keys', lt) && forall k :: k in keys' <==> k == key || k in keys
  {
    hide StrictOrder, Ordered;
    var i := 0;
    while i < |keys| && lt(keys[i], key)
      invariant i <= |keys| && forall j :: 0 <= j < i ==> lt(keys[j], key)
    {
      i := i + 1;
    }
    keys' := keys[..i] + [key] + keys[i..];
    assert keys == keys[..i] + keys[i..];
    InsertOrdered(keys, i, key, lt);
  }

  lemma InsertOrdered<K(!new)>(keys: seq<K>, i: nat, key: K, lt: (K, K) -> bool)
    requires StrictOrder(lt) && Ordered(keys, lt) && key !in keys && i <= |keys|
    requires (forall j :: 0 <= j < i ==> lt(keys[j], key)) && (i < |keys| ==> !lt(keys[i], key))
    ensures Ordered(keys[..i] + [key] + keys[i..], lt)
  {
    var all := keys[..i] + [key] + keys[i..];
    forall j | i <= j < |keys|
      ensures lt(key, keys[j])
    {
      assert lt(key, keys[i]);
      if j > i {
        assert lt(keys[i], keys[j]);
      }
    }
    hide StrictOrder;
    forall j, k | 0 <= j < k < |all|
      ensures lt(all[j], all[k])
    {
      assert j < i ==> lt(keys[j], key);
    }
  }

  /** The keys of a map in order. */
  method SortedKeys<K(==, !new)>(m: map<K, Totals>, lt: (K, K) -> bool) returns (keys: seq<K>)
    requires StrictOrder(lt)
    ensures Ordered(keys, lt) && forall k :: k in keys <==> k in m
  {
    hide Ordered;
    keys := [];
    var rest := m.Keys;
    EmptyOrdered(lt);
    while rest != {}
      invariant rest <= m.Keys && Ordered(keys, lt)
      invariant forall k :: k in keys <==> k in m && k !in rest
      decreases |rest|
    {
      var k :| k in rest;
      keys := Insert(keys, k, lt);
      rest := rest - {k};
    }
  }

  lemma EmptyOrdered<K>(lt: (K, K) -> bool)
    ensures Ordered([], lt)
  {
  }

  /** `usageSortedDimensions`. */
  method Listing<K(==, !new)>(m: map<K, Totals>, lt: (K, K) -> bool) returns (list: seq<DimensionTotals<K>>)
    requires StrictOrder(lt)
    ensures Lists(list, m, lt)
  {
    var keys := SortedKeys(m, lt);
    list := [];
    for i := 0 to |keys|
      invariant |list| == i && forall j :: 0 <= j < i ==> list[j] == DimensionTotals(keys[j], m[keys[j]])
    {
      assert keys[i] in keys;
      list := list + [DimensionTotals(keys[i], m[keys[i]])];
    }
    forall k | k in m
      ensures exists i :: 0 <= i < |list| && list[i].key == k
    {
      var i :| 0 <= i < |keys| && keys[i] == k;
      assert list[i].key == k;
    }
  }

  /** Every entry of the map once, keys strictly in order. */
  ghost predicate Lists<K(!new)>(list: seq<DimensionTotals<K>>, m: map<K, Totals>, lt: (K, K) -> bool) {
    && (forall i, j :: 0 <= i < j < |list| ==> lt(list[i].key, list[j].key))
    && (forall i :: 0 <= i < |list| ==> list[i].key in m && list[i].totals == m[list[i].key])
    && (forall k :: k in m ==> exists i :: 0 <= i < |list| && list[i].key == k)
  }

  // ---------------------------------------------------------------------------
  // Nothing is lost, nothing counted twice

  /** The sum over a listing. */
  function SumOf<K>(list: seq<DimensionTotals<K>>): Totals {
    if list == [] then NO_TOTALS else Add(list[0].totals, SumOf(list[1..]))
  }

  /** The sum of the parts, recomputed for each key of the listing. */
  function SumAt<K(==)>(list: seq<DimensionTotals<K>>, visits: seq<Visit>, table: CostTable, sel: Selector,
                        keyOf: Cell -> K): Totals {
    if list == [] then NO_TOTALS
    else Add(TotalAt(visits, table, sel, keyOf, list[0].key), SumAt(list[1..], visits, table, sel, keyOf))
  }

  predicate Distinct<K(==)>(list: seq<DimensionTotals<K>>) {
    forall i, j :: 0 <= i < j < |list| ==> list[i].key != list[j].key
  }

  ghost predicate HasKey<K>(list: seq<DimensionTotals<K>>, key: K) { exists i :: 0 <= i < |list| && list[i].key == key }

  lemma {:induction false} SumAtNothing<K>(list: seq<DimensionTotals<K>>, table: CostTable, sel: Selector,
                                           keyOf: Cell -> K)
    ensures SumAt(list, [], table, sel, keyOf) == NO_TOTALS
  {
    hide Total, Add, AddVisit;
    if list != [] {
      SumAtNothing(list[1..], table, sel, keyOf);
      NothingAt(table, sel, keyOf, list[0].key);
      AddNothing(NO_TOTALS);
    }
  }

  lemma NothingAt<K>(table: CostTable, sel: Selector, keyOf: Cell -> K, key: K)
    ensures TotalAt([], table, sel, keyOf, key) == NO_TOTALS
  {
    hide AddVisit;
  }

  /** One more visit goes to one part. */
  lemma {:induction false} SumAtStep<K>(list: seq<DimensionTotals<K>>, visits: seq<Visit>, v: Visit, table: CostTable,
                                        sel: Selector, keyOf: Cell -> K)
    requires Distinct(list)
    ensures SumAt(list, visits + [v], table, sel, keyOf)
         == if sel(v.cell) && HasKey(list, keyOf(v.cell))
            then AddVisit(SumAt(list, visits, table, sel, keyOf), table, v)
            else SumAt(list, visits, table, sel, keyOf)
  {
    hide CellTotals, HasKey, Distinct;
    var key := keyOf(v.cell);
    if list == [] {
      NoKeys(list, key);
    } else {
      HeadOnce(list);
      SumAtStep(list[1..], visits, v, table, sel, keyOf);
      assert (visits + [v])[..|visits|] == visits;
      HasKeyStep(list, key);
    }
  }

  lemma NoKeys<K>(list: seq<DimensionTotals<K>>, key: K)
    requires list == []
    ensures !HasKey(list, key)
  {
  }

  lemma HeadOnce<K>(list: seq<DimensionTotals<K>>)
    requires Distinct(list) && list != []
    ensures Distinct(list[1..]) && !HasKey(list[1..], list[0].key)
  {
  }

  lemma HasKeyStep<K>(list: seq<DimensionTotals<K>>, key: K)
    requires list != []
    ensures HasKey(list, key) <==> list[0].key == key || HasKey(list[1..], key)
  {
    if i :| 0 <= i < |list[1..]| && list[1..][i].key == key {
      assert list[i + 1].key == key;
    }
    if i :| 0 < i < |list| && list[i].key == key {
      assert list[1..][i - 1].key == key;
    }
  }

  lemma {:induction false} PartsMakeTotal<K>(list: seq<DimensionTotals<K>>, visits: seq<Visit>, table: CostTable,
                                             sel: Selector, keyOf: Cell -> K)
    requires Distinct(list) && forall i :: 0 <= i < |visits| && sel(visits[i].cell) ==>
      HasKey(list, keyOf(visits[i].cell))
    ensures SumAt(list, visits, table, sel, keyOf) == Total(visits, table, sel)
  {
    hide CellTotals, SumAt, HasKey;
    if visits == [] {
      SumAtNothing(list, table, sel, keyOf);
    } else {
      var front, v := visits[..|visits| - 1], visits[|visits| - 1];
      assert visits == front + [v];
      PartsMakeTotal(list, front, table, sel, keyOf);
      SumAtStep(list, front, v, table, sel, keyOf);
    }
  }

  lemma {:induction false} SumIsSumAt<K>(list: seq<DimensionTotals<K>>, visits: seq<Visit>, table: CostTable,
                                         sel: Selector, keyOf: Cell -> K)
    requires forall i :: 0 <= i < |list| ==> list[i].totals == TotalAt(visits, table, sel, keyOf, list[i].key)
    ensures SumOf(list) == SumAt(list, visits, table, sel, keyOf)
  {
    if list != [] {
      SumIsSumAt(list[1..], visits, table, sel, keyOf);
    }
  }

  /** A breakdown of the selected visits: strictly ordered keys, one part for each key
      that occurs and for no other, each part the sum over its own visits. */
  ghost predicate Breakdown<K(!new)>(list: seq<DimensionTotals<K>>, visits: seq<Visit>, table: CostTable, sel: Selector,
                                     keyOf: Cell -> K, lt: (K, K) -> bool) {
    && (forall i, j :: 0 <= i < j < |list| ==> lt(list[i].key, list[j].key))
    && (forall i :: 0 <= i < |list| ==> list[i].totals == TotalAt(visits, table, sel, keyOf, list[i].key))
    && (forall key :: HasKey(list, key) <==> Seen(visits, sel, keyOf, key))
  }

  lemma ListingIsBreakdown<K(!new)>(list: seq<DimensionTotals<K>>, m: map<K, Totals>, visits: seq<Visit>,
                                    table: CostTable, sel: Selector, keyOf: Cell -> K, lt: (K, K) -> bool)
    requires Lists(list, m, lt) && Tallied(m, visits, table, sel, keyOf)
    ensures Breakdown(list, visits, table, sel, keyOf, lt)
  {
    hide TotalAt, Seen;
    forall key
      ensures HasKey(list, key) <==> key in m
    {
    }
  }

  /** Conservation: the parts of a breakdown add up to the whole, in every counter and in
      cost. */
  lemma BreakdownConserves<K(!new)>(list: seq<DimensionTotals<K>>, visits: seq<Visit>, table: CostTable, sel: Selector,
                                    keyOf: Cell -> K, lt: (K, K) -> bool)
    requires StrictOrder(lt) && Breakdown(list, visits, table, sel, keyOf, lt)
    ensures SumOf(list) == Total(visits, table, sel)
  {
    hide TotalAt, HasKey;
    forall i | 0 <= i < |visits| && sel(visits[i].cell)
      ensures HasKey(list, keyOf(visits[i].cell))
    {
      assert Seen(visits, sel, keyOf, keyOf(visits[i].cell));
    }
    SumIsSumAt(list, visits, table, sel, keyOf);
    PartsMakeTotal(list, visits, table, sel, keyOf);
  }
}

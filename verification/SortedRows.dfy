/** A store bucket: rows sorted by key, read by point lookup and by cursor. */
module SortedRows {
  import opened Wrappers
  import opened ByteOrder

  datatype Row<+V> = Row(key: string, val: V)

  ghost predicate Sorted<V>(rows: seq<Row<V>>) {
    forall i, j :: 0 <= i < j < |rows| ==> Less(rows[i].key, rows[j].key)
  }

  /** Value stored under a key. */
  function Get<V>(rows: seq<Row<V>>, key: string): Option<V> {
    if rows == [] then None
    else if rows[0].key == key then Some(rows[0].val)
    else Get(rows[1..], key)
  }

  lemma {:induction false} GetAt<V>(rows: seq<Row<V>>, i: nat)
    requires Sorted(rows) && i < |rows|
    ensures Get(rows, rows[i].key) == Some(rows[i].val)
  {
    if i > 0 {
      LessIrreflexive(rows[i].key);
      assert Less(rows[0].key, rows[i].key);
      GetAt(rows[1..], i - 1);
    }
  }

  lemma {:induction false} GetFinds<V>(rows: seq<Row<V>>, key: string)
    ensures Get(rows, key).Some? ==>
      exists i :: 0 <= i < |rows| && rows[i].key == key && Get(rows, key) == Some(rows[i].val)
    ensures Get(rows, key).None? <==> forall i :: 0 <= i < |rows| ==> rows[i].key != key
  {
    if rows != [] && rows[0].key != key {
      GetFinds(rows[1..], key);
      if Get(rows, key).Some? {
        var i :| 0 <= i < |rows[1..]| && rows[1..][i].key == key && Get(rows[1..], key) == Some(rows[1..][i].val);
        assert rows[i + 1].key == key;
      }
      forall i | 0 < i < |rows|
        ensures rows[i] == rows[1..][i - 1]
      {
      }
    }
  }

  /** Cursor seek: position of the first row whose key is not below `key`. */
  method Seek<V>(rows: seq<Row<V>>, key: string) returns (i: nat)
    ensures i <= |rows|
    ensures forall k :: 0 <= k < i ==> Less(rows[k].key, key)
    ensures i < |rows| ==> !Less(rows[i].key, key)
  {
    i := 0;
    while i < |rows| && Less(rows[i].key, key)
      invariant i <= |rows|
      invariant forall k :: 0 <= k < i ==> Less(rows[k].key, key)
    {
      i := i + 1;
    }
  }

  lemma SeekExact<V>(rows: seq<Row<V>>, i: nat, at: nat)
    requires Sorted(rows) && i <= |rows| && at < |rows|
    requires forall k :: 0 <= k < i ==> Less(rows[k].key, rows[at].key)
    requires i < |rows| ==> !Less(rows[i].key, rows[at].key)
    ensures i == at
  {
    LessIrreflexive(rows[at].key);
  }

  /** The rows with `key` set to `v`, given the seek position of the key. */
  function PutAt<V>(rows: seq<Row<V>>, i: nat, key: string, v: V): seq<Row<V>>
    requires i <= |rows|
  {
    if i < |rows| && rows[i].key == key then rows[..i] + [Row(key, v)] + rows[i + 1..]
    else rows[..i] + [Row(key, v)] + rows[i..]
  }

  ghost predicate SeekPosition<V>(rows: seq<Row<V>>, i: nat, key: string) {
    && i <= |rows|
    && (forall k :: 0 <= k < i ==> Less(rows[k].key, key))
    && (i < |rows| ==> !Less(rows[i].key, key))
  }

  lemma PutSorted<V>(rows: seq<Row<V>>, i: nat, key: string, v: V)
    requires Sorted(rows) && SeekPosition(rows, i, key)
    ensures Sorted(PutAt(rows, i, key, v))
  {
    if i < |rows| {
      LessTotal(rows[i].key, key);
      forall j | i <= j < |rows|
        ensures rows[j].key == key || Less(key, rows[j].key)
        ensures j > i ==> Less(key, rows[j].key)
      {
        if j > i {
          assert Less(rows[i].key, rows[j].key);
          if rows[i].key != key {
            LessTransitive(key, rows[i].key, rows[j].key);
          }
        }
      }
    }
  }

  lemma {:induction false} GetAppend<V>(a: seq<Row<V>>, b: seq<Row<V>>, key: string)
    ensures Get(a + b, key) == if Get(a, key).Some? then Get(a, key) else Get(b, key)
  {
    if a == [] {
      assert a + b == b;
    } else {
      assert (a + b)[1..] == a[1..] + b;
      GetAppend(a[1..], b, key);
    }
  }

  /** Setting a key changes that key's value and no other. */
  lemma PutGet<V>(rows: seq<Row<V>>, i: nat, key: string, v: V, other: string)
    requires Sorted(rows) && SeekPosition(rows, i, key)
    ensures Get(PutAt(rows, i, key, v), other) == if other == key then Some(v) else Get(rows, other)
  {
    var a := rows[..i];
    GetFinds(a, key);
    LessIrreflexive(key);
    assert Get(a, key).None?;
    assert rows == a + rows[i..];
    GetAppend(a, rows[i..], other);
    if i < |rows| && rows[i].key == key {
      assert rows[i..][1..] == rows[i + 1..];
      assert PutAt(rows, i, key, v) == a + ([Row(key, v)] + rows[i + 1..]);
      GetAppend(a, [Row(key, v)] + rows[i + 1..], other);
      assert ([Row(key, v)] + rows[i + 1..])[1..] == rows[i + 1..];
    } else {
      assert PutAt(rows, i, key, v) == a + ([Row(key, v)] + rows[i..]);
      GetAppend(a, [Row(key, v)] + rows[i..], other);
      assert ([Row(key, v)] + rows[i..])[1..] == rows[i..];
    }
  }
}

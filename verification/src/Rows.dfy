/** Keyed rows as an iterator hands them out, and what a value filter keeps of them. */
module Rows {
  import opened Order

  datatype Row<K, V> = Row(key: K, value: V)

  function Values<K, V>(rows: seq<Row<K, V>>): (values: seq<V>)
    ensures |values| == |rows| && forall i :: 0 <= i < |rows| ==> values[i] == rows[i].value
  {
    if rows == [] then [] else [rows[0].value] + Values(rows[1..])
  }

  lemma ValuesConcat<K, V>(a: seq<Row<K, V>>, b: seq<Row<K, V>>)
    ensures Values(a + b) == Values(a) + Values(b)
  {
  }

  ghost predicate AscendingRows<K, V>(lt: (K, K) -> bool, rows: seq<Row<K, V>>) {
    forall i, j :: 0 <= i < j < |rows| ==> lt(rows[i].key, rows[j].key)
  }

  ghost predicate HasKey<K, V>(rows: seq<Row<K, V>>, k: K) {
    exists i :: 0 <= i < |rows| && rows[i].key == k
  }

  ghost predicate HasRow<K, V>(rows: seq<Row<K, V>>, r: Row<K, V>) {
    exists i :: 0 <= i < |rows| && rows[i] == r
  }

  /** Every row is an entry of `m` whose key is wanted. */
  ghost predicate RowsFrom<K(!new), V>(m: map<K, V>, want: K -> bool, rows: seq<Row<K, V>>) {
    forall i :: 0 <= i < |rows| ==> rows[i].key in m && want(rows[i].key) && rows[i].value == m[rows[i].key]
  }

  /** Every wanted key of `m` has a row. */
  ghost predicate Covers<K(!new), V>(m: map<K, V>, want: K -> bool, rows: seq<Row<K, V>>) {
    forall k :: k in m && want(k) ==> HasKey(rows, k)
  }

  /** `rows` are the entries of `m` whose key is wanted, each once, in key order. */
  ghost predicate IsScan<K(!new), V>(lt: (K, K) -> bool, m: map<K, V>, want: K -> bool, rows: seq<Row<K, V>>) {
    AscendingRows(lt, rows) && RowsFrom(m, want, rows) && Covers(m, want, rows)
  }

  lemma ConcatHasKey<K, V>(a: seq<Row<K, V>>, b: seq<Row<K, V>>, k: K)
    requires HasKey(a, k) || HasKey(b, k)
    ensures HasKey(a + b, k)
  {
    if HasKey(a, k) {
      var i :| 0 <= i < |a| && a[i].key == k;
      assert (a + b)[i] == a[i];
    } else {
      var i :| 0 <= i < |b| && b[i].key == k;
      assert (a + b)[|a| + i] == b[i];
    }
  }

  lemma RowHasKey<K, V>(rows: seq<Row<K, V>>, r: Row<K, V>)
    requires HasRow(rows, r)
    ensures HasKey(rows, r.key)
  {
  }

  lemma RowValue<K, V>(rows: seq<Row<K, V>>, r: Row<K, V>)
    requires HasRow(rows, r)
    ensures r.value in Values(rows)
  {
    var i :| 0 <= i < |rows| && rows[i] == r;
    assert Values(rows)[i] == r.value;
  }

  lemma ValueAt<K, V>(rows: seq<Row<K, V>>, v: V) returns (i: nat)
    requires v in Values(rows)
    ensures i < |rows| && rows[i].value == v
  {
    i :| 0 <= i < |rows| && Values(rows)[i] == v;
  }

  lemma WindowHasKey<K, V>(rows: seq<Row<K, V>>, i: nat, j: nat, n: nat)
    requires i <= n < j <= |rows|
    ensures HasKey(rows[i..j], rows[n].key)
  {
    assert rows[i..j][n - i] == rows[n];
  }

  /** An ascending list of rows is determined by the rows in it. */
  lemma {:induction false} AscendingRowsUnique<K(!new), V(!new)>(
      lt: (K, K) -> bool, s: seq<Row<K, V>>, t: seq<Row<K, V>>)
    requires StrictTotal(lt) && AscendingRows(lt, s) && AscendingRows(lt, t)
    requires forall r :: HasRow(s, r) <==> HasRow(t, r)
    ensures s == t
    decreases |s|
  {
    if s != [] { assert HasRow(t, s[0]) by { assert HasRow(s, s[0]); } }
    if t != [] { assert HasRow(s, t[0]) by { assert HasRow(t, t[0]); } }
    if s != [] {
      assert s[0] == t[0];
      forall r ensures HasRow(s[1..], r) <==> HasRow(t[1..], r) {
        TailRow(lt, s, r);
        TailRow(lt, t, r);
      }
      AscendingRowsUnique(lt, s[1..], t[1..]);
      assert s == [s[0]] + s[1..] && t == [t[0]] + t[1..];
    }
  }

  lemma TailRow<K(!new), V>(lt: (K, K) -> bool, s: seq<Row<K, V>>, r: Row<K, V>)
    requires StrictTotal(lt) && AscendingRows(lt, s) && s != []
    ensures HasRow(s[1..], r) <==> HasRow(s, r) && r != s[0]
  {
    if HasRow(s[1..], r) {
      var i :| 0 <= i < |s| - 1 && s[1..][i] == r;
      assert s[i + 1] == r && lt(s[0].key, s[i + 1].key);
    }
    if HasRow(s, r) && r != s[0] {
      var i :| 0 <= i < |s| && s[i] == r;
      assert s[1..][i - 1] == r;
    }
  }

  /** The rows whose value the filter accepts, in order. */
  function Keep<K, V>(rows: seq<Row<K, V>>, accept: V -> bool): seq<Row<K, V>> {
    if rows == [] then []
    else (if accept(rows[0].value) then [rows[0]] else []) + Keep(rows[1..], accept)
  }

  lemma {:induction false} KeepHasRow<K, V>(rows: seq<Row<K, V>>, accept: V -> bool, r: Row<K, V>)
    ensures HasRow(Keep(rows, accept), r) <==> HasRow(rows, r) && accept(r.value)
    decreases |rows|
  {
    if rows != [] {
      var rest := Keep(rows[1..], accept);
      KeepHasRow(rows[1..], accept, r);
      ConsHasRow(rows[0], rows[1..], r);
      assert rows == [rows[0]] + rows[1..];
      ConsHasRow(rows[0], rest, r);
      assert [] + rest == rest;
    }
  }

  lemma ConsHasRow<K, V>(a: Row<K, V>, rows: seq<Row<K, V>>, r: Row<K, V>)
    ensures HasRow([a] + rows, r) <==> r == a || HasRow(rows, r)
  {
    assert ([a] + rows)[0] == a;
    if HasRow(rows, r) {
      var i :| 0 <= i < |rows| && rows[i] == r;
      assert ([a] + rows)[i + 1] == r;
    }
  }

  lemma {:induction false} KeepConcat<K, V>(a: seq<Row<K, V>>, b: seq<Row<K, V>>, accept: V -> bool)
    ensures Keep(a + b, accept) == Keep(a, accept) + Keep(b, accept)
    decreases |a|
  {
    if a == [] {
      assert a + b == b;
    } else {
      assert (a + b)[1..] == a[1..] + b;
      KeepConcat(a[1..], b, accept);
    }
  }

  /** The accepted values among the rows from position `i` up to `j`, as a loop collects them. */
  function Accepted<K, V>(rows: seq<Row<K, V>>, i: nat, j: nat, accept: V -> bool): seq<V>
    requires i <= j <= |rows|
    decreases j
  {
    if i == j then []
    else Accepted(rows, i, j - 1, accept) + (if accept(rows[j - 1].value) then [rows[j - 1].value] else [])
  }

  lemma {:induction false} AcceptedIsKeep<K, V>(rows: seq<Row<K, V>>, i: nat, j: nat, accept: V -> bool)
    requires i <= j <= |rows|
    ensures Accepted(rows, i, j, accept) == Values(Keep(rows[i..j], accept))
    decreases j
  {
    if i < j {
      AcceptedIsKeep(rows, i, j - 1, accept);
      assert rows[i..j] == rows[i..j - 1] + [rows[j - 1]];
      KeepSnoc(rows[i..j - 1], rows[j - 1], accept);
    }
  }

  lemma KeepSnoc<K, V>(a: seq<Row<K, V>>, r: Row<K, V>, accept: V -> bool)
    ensures Keep(a + [r], accept) == Keep(a, accept) + (if accept(r.value) then [r] else [])
  {
    KeepConcat(a, [r], accept);
  }

  /** Filtering keeps the key order. */
  lemma {:induction false} KeepAscending<K, V>(lt: (K, K) -> bool, rows: seq<Row<K, V>>, accept: V -> bool)
    requires AscendingRows(lt, rows)
    ensures AscendingRows(lt, Keep(rows, accept))
    decreases |rows|
  {
    if rows != [] {
      var rest := Keep(rows[1..], accept);
      KeepAscending(lt, rows[1..], accept);
      forall i | 0 <= i < |rest| ensures lt(rows[0].key, rest[i].key) {
        KeepHasRow(rows[1..], accept, rest[i]);
        var j :| 0 <= j < |rows| - 1 && rows[1..][j] == rest[i];
        assert rows[j + 1] == rest[i];
      }
    }
  }
}

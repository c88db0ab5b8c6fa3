/**
 BoltDB's cursor and the scans built on it (internal/eds/pkg/bdb/scanner.go).

 A bucket is a finite map from keys to decoded values.  Of bbolt only the cursor contract is kept:
 a cursor is a position in the bucket's keys in byte order, `Seek` moves it to the first key not
 below its argument, `Next` to the following one, and past the last key it stays.
 */
module Scanner {
  import opened Text
  import opened Rows

  /** The entries of a bucket under the given keys, in key order: what its cursor walks. */
  function Entries<V>(bucket: map<string, V>, keys: set<string>): seq<Row<string, V>>
    requires keys <= bucket.Keys
    decreases |keys|
  {
    if keys == {} then [] else
    var k := Least(keys);
    [Row(k, bucket[k])] + Entries(bucket, keys - {k})
  }

  lemma {:induction false} EntriesFrom<V>(bucket: map<string, V>, keys: set<string>)
    requires keys <= bucket.Keys
    ensures RowsFrom(bucket, k => k in keys, Entries(bucket, keys))
    ensures AscendingRows(Less, Entries(bucket, keys))
    decreases |keys|
  {
    if keys != {} {
      EntriesFrom(bucket, keys - {Least(keys)});
    }
  }

  lemma {:induction false} EntriesHaveKey<V>(bucket: map<string, V>, keys: set<string>, k: string)
    requires keys <= bucket.Keys && k in keys
    ensures HasKey(Entries(bucket, keys), k)
    decreases |keys|
  {
    var rows, rest := Entries(bucket, keys), Entries(bucket, keys - {Least(keys)});
    if k == Least(keys) {
      assert rows[0].key == k;
    } else {
      EntriesHaveKey(bucket, keys - {Least(keys)}, k);
      var i :| 0 <= i < |rest| && rest[i].key == k;
      assert rows[i + 1].key == k;
    }
  }

  lemma EntriesScan<V>(bucket: map<string, V>)
    ensures IsScan(Less, bucket, k => k in bucket, Entries(bucket, bucket.Keys))
  {
    EntriesFrom(bucket, bucket.Keys);
    forall k | k in bucket ensures HasKey(Entries(bucket, bucket.Keys), k) {
      EntriesHaveKey(bucket, bucket.Keys, k);
    }
  }

  /** The position of the first row, from position `i` on, whose key is not below `start`. */
  function Seek<V>(rows: seq<Row<string, V>>, i: nat, start: string): (at: nat)
    requires i <= |rows|
    ensures i <= at <= |rows|
    decreases |rows| - i
  {
    if i < |rows| && Less(rows[i].key, start) then Seek(rows, i + 1, start) else i
  }

  /** The position where a scan standing at `i` first meets a key without the prefix. */
  function Stop<V>(rows: seq<Row<string, V>>, i: nat, prefix: string): (at: nat)
    requires i <= |rows|
    ensures i <= at <= |rows|
    ensures forall n :: i <= n < at ==> prefix <= rows[n].key
    ensures at < |rows| ==> !(prefix <= rows[at].key)
    decreases |rows| - i
  {
    if i < |rows| && prefix <= rows[i].key then Stop(rows, i + 1, prefix) else i
  }

  /** What a scan is meant to visit: the keys at or above `start` that carry the prefix. */
  predicate InRange(key: string, start: string, prefix: string) {
    !Less(key, start) && prefix <= key
  }

  /** What a scan does visit: the stretch from where it lands to where it stops. */
  predicate Visited<V>(rows: seq<Row<string, V>>, start: string, prefix: string, n: nat) {
    var i := Seek(rows, 0, start);
    i <= n < Stop(rows, i, prefix)
  }

  lemma {:induction false} SeekLands<V>(rows: seq<Row<string, V>>, i: nat, start: string)
    requires i <= |rows|
    ensures var at := Seek(rows, i, start);
            && (forall n :: i <= n < at ==> Less(rows[n].key, start))
            && (at < |rows| ==> !Less(rows[at].key, start))
    decreases |rows| - i
  {
    if i < |rows| && Less(rows[i].key, start) {
      SeekLands(rows, i + 1, start);
    }
  }

  /** Everything from the landing place on is at or above `start`, and nothing before it is. */
  lemma SeekSplits<V>(rows: seq<Row<string, V>>, start: string, n: nat)
    requires AscendingRows(Less, rows) && n < |rows|
    ensures !Less(rows[n].key, start) <==> Seek(rows, 0, start) <= n
  {
    LessStrictTotal();
    var i := Seek(rows, 0, start);
    SeekLands(rows, 0, start);
    assert i < n ==> Less(rows[i].key, rows[n].key);
  }

  /** A scan that lands on its prefix does not stop before the last key that carries it. */
  lemma LandingOnPrefix<V>(rows: seq<Row<string, V>>, start: string, prefix: string, n: nat)
    requires AscendingRows(Less, rows) && n < |rows|
    requires var i := Seek(rows, 0, start); i < |rows| && prefix <= rows[i].key
    ensures Visited(rows, start, prefix, n) <==> InRange(rows[n].key, start, prefix)
  {
    LessStrictTotal();
    SeekSplits(rows, start, n);
    var i := Seek(rows, 0, start);
    var stop := Stop(rows, i, prefix);
    if stop <= n && prefix <= rows[n].key {
      assert i < stop && (stop == n || Less(rows[stop].key, rows[n].key)) && Less(rows[i].key, rows[stop].key);
      PrefixConvex(prefix, rows[i].key, rows[stop].key, rows[n].key);
    }
  }

  /**
   Seeking to a start that carries the prefix, and stopping at the first key without it, visits
   exactly the keys in range.
   */
  lemma PrefixScanExact<V>(rows: seq<Row<string, V>>, start: string, prefix: string, n: nat)
    requires AscendingRows(Less, rows) && n < |rows|
    requires prefix <= start
    ensures Visited(rows, start, prefix, n) <==> InRange(rows[n].key, start, prefix)
  {
    LessStrictTotal();
    var i := Seek(rows, 0, start);
    SeekSplits(rows, start, n);
    if InRange(rows[n].key, start, prefix) {
      SeekSplits(rows, start, i);
      assert i == n || Less(rows[i].key, rows[n].key);
      PrefixConvex(prefix, start, rows[i].key, rows[n].key);
    }
    if i < |rows| && prefix <= rows[i].key {
      LandingOnPrefix(rows, start, prefix, n);
    }
  }

  /**
   For an arbitrary start, such as a page token made up by the caller, the exact condition for the
   scan to visit every key in range: it lands on the prefix, or nothing is in range.
   */
  lemma ScanExactIff<V>(rows: seq<Row<string, V>>, start: string, prefix: string)
    requires AscendingRows(Less, rows)
    ensures (forall n :: 0 <= n < |rows| ==> (Visited(rows, start, prefix, n) <==> InRange(rows[n].key, start, prefix)))
            <==> ((Seek(rows, 0, start) < |rows| && prefix <= rows[Seek(rows, 0, start)].key)
                  || (forall n :: 0 <= n < |rows| ==> !InRange(rows[n].key, start, prefix)))
  {
    var i := Seek(rows, 0, start);
    if i < |rows| && prefix <= rows[i].key {
      forall n | 0 <= n < |rows|
        ensures Visited(rows, start, prefix, n) <==> InRange(rows[n].key, start, prefix)
      {
        LandingOnPrefix(rows, start, prefix, n);
      }
    }
  }

  /** A made-up start below the prefix, with another key in between: the scan stops there and misses what is in range. */
  lemma MadeUpTokenMisses<V>(between: string, key: string, v: V, start: string, prefix: string)
    requires !Less(between, start) && Less(between, key) && !(prefix <= between) && prefix <= key
    ensures var rows := [Row(between, v), Row(key, v)];
            AscendingRows(Less, rows) && InRange(key, start, prefix) && !Visited(rows, start, prefix, 1)
  {
    LessStrictTotal();
    var rows := [Row(between, v), Row(key, v)];
    SeekSplits(rows, start, 0);
  }

  /** Such a bucket: the scan for `b` from `a` stops at `a`. */
  lemma MadeUpTokenWitness()
    ensures var rows := [Row("a", 0), Row("b", 0)]; InRange("b", "a", "b") && !Visited(rows, "a", "b", 1)
  {
    assert LessAt("a", "b", 0);
    MadeUpTokenMisses("a", "b", 0, "a", "b");
  }

  /** What a scan from `start` yields. */
  function ScanRows<V>(bucket: map<string, V>, start: string, prefix: string): seq<Row<string, V>> {
    var rows := Entries(bucket, bucket.Keys);
    var i := Seek(rows, 0, start);
    rows[i..Stop(rows, i, prefix)]
  }

  lemma ScanRowsCover<V>(bucket: map<string, V>, start: string, prefix: string, k: string)
    requires prefix <= start && k in bucket && InRange(k, start, prefix)
    ensures HasKey(ScanRows(bucket, start, prefix), k)
  {
    var rows := Entries(bucket, bucket.Keys);
    EntriesHaveKey(bucket, bucket.Keys, k);
    var n :| 0 <= n < |rows| && rows[n].key == k;
    assert Visited(rows, start, prefix, n) by {
      EntriesFrom(bucket, bucket.Keys);
      PrefixScanExact(rows, start, prefix, n);
    }
    var i := Seek(rows, 0, start);
    WindowHasKey(rows, i, Stop(rows, i, prefix), n);
  }

  lemma ScanRowsSound<V>(bucket: map<string, V>, start: string, prefix: string, n: nat)
    requires prefix <= start && n < |ScanRows(bucket, start, prefix)|
    ensures var r := ScanRows(bucket, start, prefix)[n];
            r.key in bucket && InRange(r.key, start, prefix) && r.value == bucket[r.key]
  {
    EntriesFrom(bucket, bucket.Keys);
    var rows := Entries(bucket, bucket.Keys);
    var i := Seek(rows, 0, start);
    assert ScanRows(bucket, start, prefix)[n] == rows[i + n];
    PrefixScanExact(rows, start, prefix, i + n);
  }

  lemma ScanRowsAscend<V>(bucket: map<string, V>, start: string, prefix: string)
    ensures AscendingRows(Less, ScanRows(bucket, start, prefix))
  {
    EntriesFrom(bucket, bucket.Keys);
  }

  /** A prefix scan yields exactly the bucket's entries in range, each once, in key order. */
  lemma ScanRowsExact<V>(bucket: map<string, V>, start: string, prefix: string)
    requires prefix <= start
    ensures IsScan(Less, bucket, k => InRange(k, start, prefix), ScanRows(bucket, start, prefix))
  {
    var run := ScanRows(bucket, start, prefix);
    assert AscendingRows(Less, run) by { ScanRowsAscend(bucket, start, prefix); }
    forall n | 0 <= n < |run|
      ensures run[n].key in bucket && InRange(run[n].key, start, prefix) && run[n].value == bucket[run[n].key]
    {
      ScanRowsSound(bucket, start, prefix, n);
    }
    forall k | k in bucket && InRange(k, start, prefix) ensures HasKey(run, k) {
      ScanRowsCover(bucket, start, prefix, k);
    }
  }

  /** A scan that starts at its own prefix visits every key that carries it. */
  lemma PrefixInRange(key: string, prefix: string)
    ensures InRange(key, prefix, prefix) <==> prefix <= key
  {
    if prefix <= key { PrefixNotAbove(prefix, key); }
  }

  /** `ScanIterator`: a cursor over one bucket, moved by `Next`. */
  class ScanIterator<V> {
    const rows: seq<Row<string, V>>
    const startToken: string
    const keyFilter: string
    var init: bool
    var pos: nat

    /** `NewScanIterator`: without a page token the scan starts at the key filter. */
    constructor (bucket: map<string, V>, pageToken: string, keyFilter: string)
      ensures Valid() && !init
      ensures rows[Landing()..End()] == ScanRows(bucket, if pageToken == "" then keyFilter else pageToken, keyFilter)
    {
      this.rows := Entries(bucket, bucket.Keys);
      this.startToken := if pageToken == "" then keyFilter else pageToken;
      this.keyFilter := keyFilter;
      this.init := false;
      this.pos := 0;
    }

    ghost predicate Valid() reads this {
      pos <= |rows|
    }

    /** Where the next call to `Next` will land. */
    function Landing(): (at: nat)
      requires Valid()
      reads this
      ensures at <= |rows|
    {
      if !init then Seek(rows, 0, startToken)
      else if pos < |rows| then pos + 1
      else pos
    }

    /** Successive calls to `Next` yield the rows from `Landing` up to here, and then return false. */
    ghost function End(): (at: nat)
      requires Valid()
      reads this
      ensures Landing() <= at <= |rows|
    {
      Stop(rows, Landing(), keyFilter)
    }

    method Next() returns (ok: bool)
      requires Valid()
      modifies this`init, this`pos
      ensures Valid() && init
      ensures ok <==> old(Landing()) < old(End())
      ensures ok ==> pos == old(Landing()) && Landing() == pos + 1 && End() == old(End())
    {
      pos := Landing();
      init := true;
      ok := pos < |rows| && keyFilter <= rows[pos].key;
    }
  }

  /** The loop of every caller that reads an iterator to its end. */
  method Drain<V>(iter: ScanIterator<V>) returns (values: seq<V>)
    requires iter.Valid()
    modifies iter
    ensures values == Values(iter.rows[old(iter.Landing())..old(iter.End())])
  {
    ghost var lo, hi, c := iter.Landing(), iter.End(), iter.Landing();
    values := [];
    var more := iter.Next();
    while more
      invariant iter.Valid() && lo <= c <= hi
      invariant more <==> c < hi
      invariant more ==> iter.pos == c && iter.Landing() == c + 1 && iter.End() == hi
      invariant |values| == c - lo && forall i :: 0 <= i < c - lo ==> values[i] == iter.rows[lo + i].value
      decreases hi - c
    {
      values := values + [iter.rows[iter.pos].value];
      c := c + 1;
      more := iter.Next();
    }
  }

  /**
   `ScanWithFilter`: the rows under the prefix, in key order, that the value filter accepts, after
   those already in `out`.
   */
  method ScanWithFilter<V>(bucket: map<string, V>, keyFilter: string, valueFilter: V -> bool, out: seq<V>)
    returns (results: seq<V>)
    ensures results == out + Values(Keep(ScanRows(bucket, keyFilter, keyFilter), valueFilter))
  {
    var rows := Entries(bucket, bucket.Keys);
    results := out;
    var start := Seek(rows, 0, keyFilter);
    var c := start;
    while c < |rows| && keyFilter <= rows[c].key
      invariant start <= c <= Stop(rows, start, keyFilter)
      invariant results == out + Accepted(rows, start, c, valueFilter)
    {
      var m := rows[c].value;
      if valueFilter(m) {
        results := results + [m];
      }
      c := c + 1;
    }
    AcceptedIsKeep(rows, start, c, valueFilter);
  }

  /** `KeyPrefixExists` */
  method KeyPrefixExists<V>(bucket: map<string, V>, keyFilter: string) returns (found: bool)
    ensures found <==> exists k :: k in bucket && keyFilter <= k
  {
    var rows := Entries(bucket, bucket.Keys);
    var c := Seek(rows, 0, keyFilter);
    found := c < |rows| && keyFilter <= rows[c].key;
    EntriesScan(bucket);
    forall k | k in bucket && keyFilter <= k ensures found {
      assert HasKey(rows, k);
      var n :| 0 <= n < |rows| && rows[n].key == k;
      PrefixInRange(k, keyFilter);
      PrefixScanExact(rows, keyFilter, keyFilter, n);
    }
    assert found ==> rows[c].key in bucket;
  }
}

/**
 Paged scans and the client that follows their tokens
 (internal/eds/pkg/directory/v3/reader.go, internal/eds/pkg/store/iterator.go,
 daemon/authorizer/builtins/ds/relations.go).

 A page is cut from the rows an iterator yields.  Its token is the key of the first row it did not
 look at, and the next request resumes at that key, inclusive.  Between two requests the store may
 have been written to in any way.
 */
module Paging {
  import opened Wrappers
  import opened Order
  import opened Rows

  datatype Page<K, V> = Page(rows: seq<Row<K, V>>, next: Option<K>)

  /** Where a page of `size` accepted rows, begun at row `i`, ends; a size below one never fills up. */
  function Cut<K, V>(rows: seq<Row<K, V>>, i: nat, end: nat, size: int, accept: V -> bool): (c: nat)
    requires i <= end <= |rows|
    ensures i <= c <= end
    decreases end - i
  {
    if i == end then i
    else if !accept(rows[i].value) then Cut(rows, i + 1, end, size, accept)
    else if size == 1 then i + 1
    else Cut(rows, i + 1, end, size - 1, accept)
  }

  function PageOf<K, V>(rows: seq<Row<K, V>>, size: int, accept: V -> bool): Page<K, V> {
    var c := Cut(rows, 0, |rows|, size, accept);
    Page(Keep(rows[..c], accept), if c < |rows| then Some(rows[c].key) else None)
  }

  /** Cutting a window of a list is cutting the list at that place. */
  lemma {:induction false} CutWindow<K, V>(rows: seq<Row<K, V>>, lo: nat, hi: nat, i: nat, size: int, accept: V -> bool)
    requires lo <= i <= hi <= |rows|
    ensures Cut(rows[lo..hi], i - lo, hi - lo, size, accept) + lo == Cut(rows, i, hi, size, accept)
    decreases hi - i
  {
    if i < hi {
      assert rows[lo..hi][i - lo] == rows[i];
      if !accept(rows[i].value) {
        CutWindow(rows, lo, hi, i + 1, size, accept);
      } else if size != 1 {
        CutWindow(rows, lo, hi, i + 1, size - 1, accept);
      }
    }
  }

  /** A page that ends before the rows do ends on its last accepted row. */
  lemma {:induction false} CutOnAccepted<K, V>(rows: seq<Row<K, V>>, i: nat, size: int, accept: V -> bool)
    requires i <= |rows|
    ensures var c := Cut(rows, i, |rows|, size, accept);
            c < |rows| ==> i < c && size >= 1 && accept(rows[c - 1].value)
    decreases |rows| - i
  {
    if i < |rows| {
      if !accept(rows[i].value) {
        CutOnAccepted(rows, i + 1, size, accept);
      } else if size != 1 {
        CutOnAccepted(rows, i + 1, size - 1, accept);
      }
    }
  }

  /** A page holds at most `size` rows, and exactly `size` when there is a next one. */
  lemma {:induction false} PageLength<K, V>(rows: seq<Row<K, V>>, i: nat, size: int, accept: V -> bool)
    requires i <= |rows|
    ensures var c := Cut(rows, i, |rows|, size, accept);
            && (size >= 1 ==> |Keep(rows[i..c], accept)| <= size)
            && (c < |rows| ==> |Keep(rows[i..c], accept)| == size)
    decreases |rows| - i
  {
    var c := Cut(rows, i, |rows|, size, accept);
    if i < |rows| {
      assert rows[i..c] == [rows[i]] + rows[i + 1..c] && rows[i..c][1..] == rows[i + 1..c];
      if !accept(rows[i].value) {
        PageLength(rows, i + 1, size, accept);
      } else if size == 1 {
        assert rows[i + 1..c] == [];
      } else {
        PageLength(rows, i + 1, size - 1, accept);
      }
    }
  }

  /** The keys a request that resumes at `start` asks for. */
  ghost function Wanted<K>(lt: (K, K) -> bool, want: K -> bool, start: Option<K>): K -> bool {
    k => want(k) && (start.Some? ==> !lt(k, start.value))
  }

  ghost predicate Before<K>(lt: (K, K) -> bool, k: K, next: Option<K>) {
    next.Some? ==> lt(k, next.value)
  }

  /** `page` is what the request answers on the store `m`. */
  ghost predicate IsPage<K(!new), V(!new)>(
      lt: (K, K) -> bool, want: K -> bool, accept: V -> bool, size: int,
      start: Option<K>, m: map<K, V>, page: Page<K, V>)
  {
    exists rows :: IsScan(lt, m, Wanted(lt, want, start), rows) && page == PageOf(rows, size, accept)
  }

  /** The rows of a page are entries the request asked for, in key order, below the token. */
  lemma PageSound<K(!new), V(!new)>(
      lt: (K, K) -> bool, want: K -> bool, accept: V -> bool, size: int,
      start: Option<K>, m: map<K, V>, page: Page<K, V>)
    requires IsPage(lt, want, accept, size, start, m, page)
    ensures AscendingRows(lt, page.rows)
    ensures RowsFrom(m, Wanted(lt, want, start), page.rows)
    ensures forall i :: 0 <= i < |page.rows| ==> accept(page.rows[i].value) && Before(lt, page.rows[i].key, page.next)
  {
    var rows: seq<Row<K, V>> :| IsScan(lt, m, Wanted(lt, want, start), rows) && page == PageOf(rows, size, accept);
    var c := Cut(rows, 0, |rows|, size, accept);
    KeepAscending(lt, rows[..c], accept);
    forall i | 0 <= i < |page.rows|
      ensures accept(page.rows[i].value) && Before(lt, page.rows[i].key, page.next)
      ensures page.rows[i].key in m && Wanted(lt, want, start)(page.rows[i].key)
              && page.rows[i].value == m[page.rows[i].key]
    {
      KeepHasRow(rows[..c], accept, page.rows[i]);
      var j :| 0 <= j < c && rows[..c][j] == page.rows[i];
      assert rows[j] == page.rows[i];
    }
  }

  /** Nothing asked for below the token is missing from the page. */
  lemma PageComplete<K(!new), V(!new)>(
      lt: (K, K) -> bool, want: K -> bool, accept: V -> bool, size: int,
      start: Option<K>, m: map<K, V>, page: Page<K, V>, k: K)
    requires StrictTotal(lt)
    requires IsPage(lt, want, accept, size, start, m, page)
    requires k in m && Wanted(lt, want, start)(k) && accept(m[k]) && Before(lt, k, page.next)
    ensures HasRow(page.rows, Row(k, m[k]))
  {
    var rows: seq<Row<K, V>> :| IsScan(lt, m, Wanted(lt, want, start), rows) && page == PageOf(rows, size, accept);
    var c := Cut(rows, 0, |rows|, size, accept);
    assert HasKey(rows, k);
    var n :| 0 <= n < |rows| && rows[n].key == k;
    assert n < c;
    assert rows[..c][n] == Row(k, m[k]);
    KeepHasRow(rows[..c], accept, Row(k, m[k]));
  }

  /** A token is the key of an entry asked for, and lies strictly beyond the resume point. */
  lemma TokenAdvances<K(!new), V(!new)>(
      lt: (K, K) -> bool, want: K -> bool, accept: V -> bool, size: int,
      start: Option<K>, m: map<K, V>, page: Page<K, V>)
    requires StrictTotal(lt)
    requires IsPage(lt, want, accept, size, start, m, page) && page.next.Some?
    ensures page.next.value in m && want(page.next.value)
    ensures start.Some? ==> lt(start.value, page.next.value)
    ensures page.rows != []
  {
    var rows: seq<Row<K, V>> :| IsScan(lt, m, Wanted(lt, want, start), rows) && page == PageOf(rows, size, accept);
    var c := Cut(rows, 0, |rows|, size, accept);
    CutOnAccepted(rows, 0, size, accept);
    assert lt(rows[c - 1].key, rows[c].key) && Wanted(lt, want, start)(rows[c - 1].key);
    assert rows[..c][c - 1] == rows[c - 1];
    KeepHasRow(rows[..c], accept, rows[c - 1]);
  }

  /** A client follows tokens: one request per store state, each resuming at the token of the last. */
  ghost predicate Follows<K(!new), V(!new)>(
      lt: (K, K) -> bool, want: K -> bool, accept: V -> bool, size: int,
      start: Option<K>, stores: seq<map<K, V>>, pages: seq<Page<K, V>>)
    decreases |pages|
  {
    && |stores| == |pages| > 0
    && IsPage(lt, want, accept, size, start, stores[0], pages[0])
    && (|pages| > 1 ==>
          && pages[0].next.Some?
          && Follows(lt, want, accept, size, pages[0].next, stores[1..], pages[1..]))
  }

  /** Everything the client has been given. */
  function Concat<K, V>(pages: seq<Page<K, V>>): seq<Row<K, V>> {
    if pages == [] then [] else pages[0].rows + Concat(pages[1..])
  }

  ghost predicate Finished<K, V>(pages: seq<Page<K, V>>) {
    pages != [] && pages[|pages| - 1].next.None?
  }

  /** One more request, at the last token, extends a followed chain. */
  lemma {:induction false} FollowsSnoc<K(!new), V(!new)>(
      lt: (K, K) -> bool, want: K -> bool, accept: V -> bool, size: int,
      start: Option<K>, stores: seq<map<K, V>>, pages: seq<Page<K, V>>, m: map<K, V>, page: Page<K, V>)
    requires Follows(lt, want, accept, size, start, stores, pages)
    requires pages[|pages| - 1].next.Some?
    requires IsPage(lt, want, accept, size, pages[|pages| - 1].next, m, page)
    ensures Follows(lt, want, accept, size, start, stores + [m], pages + [page])
    decreases |pages|
  {
    var stores', pages' := stores + [m], pages + [page];
    if |pages| == 1 {
      assert stores'[1..] == [m] && pages'[1..] == [page];
    } else {
      FollowsSnoc(lt, want, accept, size, pages[0].next, stores[1..], pages[1..], m, page);
      assert stores'[1..] == stores[1..] + [m] && pages'[1..] == pages[1..] + [page];
    }
  }

  lemma {:induction false} ConcatSnoc<K, V>(pages: seq<Page<K, V>>, page: Page<K, V>)
    ensures Concat(pages + [page]) == Concat(pages) + page.rows
    decreases |pages|
  {
    if pages == [] {
      assert pages + [page] == [page] && [page][1..] == [];
    } else {
      assert (pages + [page])[1..] == pages[1..] + [page];
      ConcatSnoc(pages[1..], page);
    }
  }

  /** Whatever is written between requests, keys come out strictly increasing, so nothing comes twice. */
  lemma {:induction false} PagesAscend<K(!new), V(!new)>(
      lt: (K, K) -> bool, want: K -> bool, accept: V -> bool, size: int,
      start: Option<K>, stores: seq<map<K, V>>, pages: seq<Page<K, V>>)
    requires StrictTotal(lt) && Follows(lt, want, accept, size, start, stores, pages)
    ensures AscendingRows(lt, Concat(pages))
    ensures forall i :: 0 <= i < |Concat(pages)| ==> Wanted(lt, want, start)(Concat(pages)[i].key)
    decreases |pages|
  {
    var first, rest := pages[0], Concat(pages[1..]);
    PageSound(lt, want, accept, size, start, stores[0], first);
    if |pages| > 1 {
      PagesAscend(lt, want, accept, size, first.next, stores[1..], pages[1..]);
      TokenAdvances(lt, want, accept, size, start, stores[0], first);
      forall i, j | 0 <= i < |first.rows| && 0 <= j < |rest|
        ensures lt(first.rows[i].key, rest[j].key)
      {
        assert Before(lt, first.rows[i].key, first.next) && Wanted(lt, want, first.next)(rest[j].key);
      }
      forall j | 0 <= j < |rest| ensures Wanted(lt, want, start)(rest[j].key) {
        assert Wanted(lt, want, first.next)(rest[j].key);
      }
    }
  }

  /** Every row handed out was an entry the filter accepted, in the store state its page was cut from. */
  lemma {:induction false} PagesSound<K(!new), V(!new)>(
      lt: (K, K) -> bool, want: K -> bool, accept: V -> bool, size: int,
      start: Option<K>, stores: seq<map<K, V>>, pages: seq<Page<K, V>>, p: nat, i: nat)
    requires Follows(lt, want, accept, size, start, stores, pages)
    requires p < |pages| && i < |pages[p].rows|
    ensures var r := pages[p].rows[i];
            r.key in stores[p] && stores[p][r.key] == r.value && want(r.key) && accept(r.value)
    decreases |pages|
  {
    PageSound(lt, want, accept, size, start, stores[0], pages[0]);
    if p > 0 {
      PagesSound(lt, want, accept, size, pages[0].next, stores[1..], pages[1..], p - 1, i);
    }
  }

  /** An entry that is present and accepted in every state a request saw is never missed. */
  lemma {:induction false} PagesComplete<K(!new), V(!new)>(
      lt: (K, K) -> bool, want: K -> bool, accept: V -> bool, size: int,
      start: Option<K>, stores: seq<map<K, V>>, pages: seq<Page<K, V>>, k: K)
    requires StrictTotal(lt) && Follows(lt, want, accept, size, start, stores, pages) && Finished(pages)
    requires Wanted(lt, want, start)(k)
    requires forall i :: 0 <= i < |stores| ==> k in stores[i] && accept(stores[i][k])
    ensures HasKey(Concat(pages), k)
    decreases |pages|
  {
    var first := pages[0];
    if Before(lt, k, first.next) {
      PageComplete(lt, want, accept, size, start, stores[0], first, k);
      RowHasKey(first.rows, Row(k, stores[0][k]));
    } else {
      PagesComplete(lt, want, accept, size, first.next, stores[1..], pages[1..], k);
    }
    ConcatHasKey(first.rows, Concat(pages[1..]), k);
  }

  ghost predicate Unchanged<K, V>(stores: seq<map<K, V>>, m: map<K, V>) {
    forall i :: 0 <= i < |stores| ==> stores[i] == m
  }

  lemma {:induction false} ConcatRow<K, V>(pages: seq<Page<K, V>>, n: nat) returns (p: nat, i: nat)
    requires n < |Concat(pages)|
    ensures p < |pages| && i < |pages[p].rows| && pages[p].rows[i] == Concat(pages)[n]
    decreases |pages|
  {
    if n < |pages[0].rows| {
      p, i := 0, n;
    } else {
      p, i := ConcatRow(pages[1..], n - |pages[0].rows|);
      p := p + 1;
    }
  }

  /** On a store nobody writes to, the pages put together are the filtered scan. */
  lemma PagesAreTheScan<K(!new), V(!new)>(
      lt: (K, K) -> bool, want: K -> bool, accept: V -> bool, size: int,
      stores: seq<map<K, V>>, pages: seq<Page<K, V>>, m: map<K, V>, scan: seq<Row<K, V>>)
    requires StrictTotal(lt) && Follows(lt, want, accept, size, None, stores, pages) && Finished(pages)
    requires Unchanged(stores, m) && IsScan(lt, m, Wanted(lt, want, None), scan)
    ensures Concat(pages) == Keep(scan, accept)
  {
    PagesAscend(lt, want, accept, size, None, stores, pages);
    KeepAscending(lt, scan, accept);
    var all := Concat(pages);
    forall r ensures HasRow(all, r) <==> HasRow(Keep(scan, accept), r) {
      KeepHasRow(scan, accept, r);
      if HasRow(all, r) {
        var n :| 0 <= n < |all| && all[n] == r;
        var p, i := ConcatRow(pages, n);
        PagesSound(lt, want, accept, size, None, stores, pages, p, i);
        ScanHasRow(lt, want, m, scan, r);
      }
      if HasRow(scan, r) && accept(r.value) {
        ScanHasRow(lt, want, m, scan, r);
        PagesComplete(lt, want, accept, size, None, stores, pages, r.key);
        var n :| 0 <= n < |all| && all[n].key == r.key;
        var p, i := ConcatRow(pages, n);
        PagesSound(lt, want, accept, size, None, stores, pages, p, i);
        assert all[n] == r;
      }
    }
    AscendingRowsUnique(lt, all, Keep(scan, accept));
  }

  lemma ScanHasRow<K(!new), V>(
      lt: (K, K) -> bool, want: K -> bool, m: map<K, V>, scan: seq<Row<K, V>>, r: Row<K, V>)
    requires IsScan(lt, m, Wanted(lt, want, None), scan)
    ensures HasRow(scan, r) <==> r.key in m && want(r.key) && m[r.key] == r.value
  {
    if r.key in m && want(r.key) && m[r.key] == r.value {
      assert Wanted(lt, want, None)(r.key);
      assert HasKey(scan, r.key);
      var n :| 0 <= n < |scan| && scan[n].key == r.key;
      assert scan[n] == r;
    }
  }

  /** The entries at or beyond the resume point. */
  ghost function Ahead<K(!new), V>(lt: (K, K) -> bool, m: map<K, V>, start: Option<K>): set<K> {
    set k | k in m && (start.Some? ==> !lt(k, start.value))
  }

  lemma AheadShrinks<K(!new), V(!new)>(
      lt: (K, K) -> bool, want: K -> bool, accept: V -> bool, size: int,
      start: Option<K>, m: map<K, V>, page: Page<K, V>)
    requires StrictTotal(lt)
    requires IsPage(lt, want, accept, size, start, m, page) && page.next.Some?
    ensures |Ahead(lt, m, page.next)| < |Ahead(lt, m, start)|
  {
    TokenAdvances(lt, want, accept, size, start, m, page);
    PageSound(lt, want, accept, size, start, m, page);
    var k := page.rows[0].key;
    assert k in m && Wanted(lt, want, start)(k) && Before(lt, k, page.next);
    SubsetSize(Ahead(lt, m, page.next), Ahead(lt, m, start) - {k});
  }

  /** On such a store the client gets its last page after at most one request per entry, plus one. */
  lemma {:induction false} PagesBounded<K(!new), V(!new)>(
      lt: (K, K) -> bool, want: K -> bool, accept: V -> bool, size: int,
      start: Option<K>, stores: seq<map<K, V>>, pages: seq<Page<K, V>>, m: map<K, V>)
    requires StrictTotal(lt) && Follows(lt, want, accept, size, start, stores, pages)
    requires Unchanged(stores, m)
    ensures |pages| <= 1 + |Ahead(lt, m, start)|
    decreases |pages|
  {
    if |pages| > 1 {
      AheadShrinks(lt, want, accept, size, start, m, pages[0]);
      PagesBounded(lt, want, accept, size, pages[0].next, stores[1..], pages[1..], m);
    }
  }
}

/**
 The directory reader's paged answers on BoltDB, and the client that collects them
 (internal/eds/pkg/directory/v3/reader.go, daemon/authorizer/builtins/ds/relations.go).
 */
module Reader {
  import opened Wrappers
  import opened Text
  import opened Rows
  import opened Scanner
  import opened Paging

  const MAX_PAGINATION_SIZE: int := 100

  function TokenOf(next: Option<string>): string {
    if next.Some? then next.value else ""
  }

  /** The page a request answers, as a cut of the rows its scan yields. */
  function Answer<V>(bucket: map<string, V>, keyFilter: string, accept: V -> bool, token: string, size: int): Page<string, V> {
    PageOf(ScanRows(bucket, if token == "" then keyFilter else token, keyFilter), size, accept)
  }

  /** The loop of `GetRelations`; `store.Page` is the same loop with a filter that accepts everything. */
  method FillPage<V>(iter: ScanIterator<V>, accept: V -> bool, size: int)
    returns (results: seq<V>, nextToken: string)
    requires iter.Valid()
    modifies iter
    ensures var lo, hi := old(iter.Landing()), old(iter.End());
            var c := Cut(iter.rows, lo, hi, size, accept);
            results == Accepted(iter.rows, lo, c, accept) && nextToken == if c < hi then iter.rows[c].key else ""
  {
    ghost var rows, lo, hi := iter.rows, iter.Landing(), iter.End();
    ghost var cut := Cut(rows, lo, hi, size, accept);
    results, nextToken := [], "";
    var more := iter.Next();
    ghost var c := lo;
    while more
      invariant iter.Valid() && lo <= c <= hi
      invariant more <==> c < hi
      invariant more ==> iter.pos == c && iter.Landing() == c + 1 && iter.End() == hi
      invariant nextToken == ""
      invariant results == Accepted(rows, lo, c, accept)
      invariant cut == Cut(rows, c, hi, size - |results|, accept)
      invariant size >= 1 ==> |results| < size
      decreases hi - c
    {
      var value := iter.rows[iter.pos].value;
      c := c + 1;
      assert Accepted(rows, lo, c, accept) == results + (if accept(value) then [value] else []);
      if accept(value) {
        results := results + [value];
        if |results| == size {
          var peek := iter.Next();
          if peek {
            nextToken := iter.rows[iter.pos].key;
          }
          break;
        }
      }
      more := iter.Next();
    }
  }

  /** A paged request against one bucket. */
  method GetPage<V>(bucket: map<string, V>, keyFilter: string, accept: V -> bool, token: string, size: int)
    returns (results: seq<V>, nextToken: string)
    ensures results == Values(Answer(bucket, keyFilter, accept, token, size).rows)
    ensures nextToken == TokenOf(Answer(bucket, keyFilter, accept, token, size).next)
  {
    var iter := new ScanIterator(bucket, token, keyFilter);
    PageWindow(iter.rows, iter.Landing(), iter.End(), size, accept);
    results, nextToken := FillPage(iter, accept, size);
  }

  /** The page cut from a window of a list, in terms of the list. */
  lemma PageWindow<V>(rows: seq<Row<string, V>>, lo: nat, hi: nat, size: int, accept: V -> bool)
    requires lo <= hi <= |rows|
    ensures var c := Cut(rows, lo, hi, size, accept);
            && Values(PageOf(rows[lo..hi], size, accept).rows) == Accepted(rows, lo, c, accept)
            && TokenOf(PageOf(rows[lo..hi], size, accept).next) == if c < hi then rows[c].key else ""
  {
    var c := Cut(rows, lo, hi, size, accept);
    CutWindow(rows, lo, hi, lo, size, accept);
    AcceptedIsKeep(rows, lo, c, accept);
    assert rows[lo..hi][..c - lo] == rows[lo..c];
  }

  function HasPrefix(prefix: string): string -> bool {
    (k: string) => prefix <= k
  }

  function StartOf(token: string): Option<string> {
    if token == "" then None else Some(token)
  }

  /** A request without a token, or with one that carries the prefix, answers the page it should. */
  lemma AnswerIsPage<V(!new)>(bucket: map<string, V>, keyFilter: string, accept: V -> bool, token: string, size: int)
    requires token == "" || keyFilter <= token
    ensures IsPage(Less, HasPrefix(keyFilter), accept, size, StartOf(token), bucket,
                   Answer(bucket, keyFilter, accept, token, size))
  {
    var start := if token == "" then keyFilter else token;
    var rows := ScanRows(bucket, start, keyFilter);
    ScanRowsExact(bucket, start, keyFilter);
    forall k ensures InRange(k, start, keyFilter) <==> Wanted(Less, HasPrefix(keyFilter), StartOf(token))(k) {
      PrefixInRange(k, keyFilter);
    }
    assert IsScan(Less, bucket, Wanted(Less, HasPrefix(keyFilter), StartOf(token)), rows);
  }

  /** The tokens a chain of pages hands out all carry the prefix, so every request in it is such a one. */
  lemma TokenCarriesPrefix<V(!new)>(bucket: map<string, V>, keyFilter: string, accept: V -> bool, token: string, size: int)
    requires token == "" || keyFilter <= token
    requires Answer(bucket, keyFilter, accept, token, size).next.Some?
    ensures keyFilter <= Answer(bucket, keyFilter, accept, token, size).next.value
    ensures Answer(bucket, keyFilter, accept, token, size).next.value in bucket
  {
    LessStrictTotal();
    AnswerIsPage(bucket, keyFilter, accept, token, size);
    TokenAdvances(Less, HasPrefix(keyFilter), accept, size, StartOf(token), bucket,
                  Answer(bucket, keyFilter, accept, token, size));
  }

  /** Following BoltDB's tokens to the end gives the filtered scan, whatever the page size. */
  lemma BoltPagesAreTheScan<V(!new)>(
      bucket: map<string, V>, keyFilter: string, accept: V -> bool, size: int,
      stores: seq<map<string, V>>, pages: seq<Page<string, V>>)
    requires Follows(Less, HasPrefix(keyFilter), accept, size, None, stores, pages)
    requires Finished(pages) && Unchanged(stores, bucket)
    ensures Concat(pages) == Keep(ScanRows(bucket, keyFilter, keyFilter), accept)
  {
    LessStrictTotal();
    WholeScan(bucket, keyFilter);
    PagesAreTheScan(Less, HasPrefix(keyFilter), accept, size, stores, pages, bucket,
                    ScanRows(bucket, keyFilter, keyFilter));
  }

  /** What the client has after some requests on an unchanged bucket: the pages so far, and where to go on. */
  ghost predicate Collected<V(!new)>(
      bucket: map<string, V>, keyFilter: string, accept: V -> bool, size: int,
      stores: seq<map<string, V>>, pages: seq<Page<string, V>>, token: string, all: seq<V>)
  {
    && Unchanged(stores, bucket) && |stores| == |pages|
    && all == Values(Concat(pages))
    && (token == "" || keyFilter <= token)
    && if pages == [] then token == ""
       else
         && token != "" && pages[|pages| - 1].next == StartOf(token)
         && Follows(Less, HasPrefix(keyFilter), accept, size, None, stores, pages)
  }

  /** One more answer: the chain grows by it. */
  lemma CollectedGrows<V(!new)>(
      bucket: map<string, V>, keyFilter: string, accept: V -> bool, size: int,
      stores: seq<map<string, V>>, pages: seq<Page<string, V>>, token: string, all: seq<V>)
    requires Collected(bucket, keyFilter, accept, size, stores, pages, token, all)
    ensures var page := Answer(bucket, keyFilter, accept, token, size);
            && Follows(Less, HasPrefix(keyFilter), accept, size, None, stores + [bucket], pages + [page])
            && all + Values(page.rows) == Values(Concat(pages + [page]))
  {
    var page := Answer(bucket, keyFilter, accept, token, size);
    AnswerIsPage(bucket, keyFilter, accept, token, size);
    if pages != [] {
      FollowsSnoc(Less, HasPrefix(keyFilter), accept, size, None, stores, pages, bucket, page);
    }
    ConcatSnoc(pages, page);
    ValuesConcat(Concat(pages), page.rows);
  }

  /** With a token, the client is further along. */
  lemma CollectedGoesOn<V(!new)>(
      bucket: map<string, V>, keyFilter: string, accept: V -> bool, size: int,
      stores: seq<map<string, V>>, pages: seq<Page<string, V>>, token: string, all: seq<V>)
    requires "" !in bucket && Collected(bucket, keyFilter, accept, size, stores, pages, token, all)
    requires Answer(bucket, keyFilter, accept, token, size).next.Some?
    ensures var page := Answer(bucket, keyFilter, accept, token, size);
            && Collected(bucket, keyFilter, accept, size, stores + [bucket], pages + [page], page.next.value,
                         all + Values(page.rows))
            && |Ahead(Less, bucket, page.next)| < |Ahead(Less, bucket, StartOf(token))|
  {
    LessStrictTotal();
    var page := Answer(bucket, keyFilter, accept, token, size);
    CollectedGrows(bucket, keyFilter, accept, size, stores, pages, token, all);
    TokenCarriesPrefix(bucket, keyFilter, accept, token, size);
    AnswerIsPage(bucket, keyFilter, accept, token, size);
    AheadShrinks(Less, HasPrefix(keyFilter), accept, size, StartOf(token), bucket, page);
  }

  /**
   `ds.relations`: ask for pages until one comes without a token.  bbolt refuses empty keys, so an
   empty token can only mean the end.
   */
  method CollectPages<V(!new)>(bucket: map<string, V>, keyFilter: string, accept: V -> bool) returns (all: seq<V>)
    requires "" !in bucket
    ensures all == Values(Keep(ScanRows(bucket, keyFilter, keyFilter), accept))
  {
    ghost var stores: seq<map<string, V>>, pages: seq<Page<string, V>> := [], [];
    var token := "";
    all := [];
    while true
      invariant Collected(bucket, keyFilter, accept, MAX_PAGINATION_SIZE, stores, pages, token, all)
      decreases |Ahead(Less, bucket, StartOf(token))|
    {
      var results, nextToken := GetPage(bucket, keyFilter, accept, token, MAX_PAGINATION_SIZE);
      ghost var page := Answer(bucket, keyFilter, accept, token, MAX_PAGINATION_SIZE);
      if page.next.Some? {
        CollectedGoesOn(bucket, keyFilter, accept, MAX_PAGINATION_SIZE, stores, pages, token, all);
        TokenCarriesPrefix(bucket, keyFilter, accept, token, MAX_PAGINATION_SIZE);
      } else {
        CollectedGrows(bucket, keyFilter, accept, MAX_PAGINATION_SIZE, stores, pages, token, all);
        BoltPagesAreTheScan(bucket, keyFilter, accept, MAX_PAGINATION_SIZE, stores + [bucket], pages + [page]);
      }
      stores, pages := stores + [bucket], pages + [page];
      all := all + results;
      if nextToken == "" {
        break;
      }
      token := nextToken;
    }
  }

  lemma WholeScan<V(!new)>(bucket: map<string, V>, keyFilter: string)
    ensures IsScan(Less, bucket, Wanted(Less, HasPrefix(keyFilter), None), ScanRows(bucket, keyFilter, keyFilter))
  {
    ScanRowsExact(bucket, keyFilter, keyFilter);
    forall k ensures InRange(k, keyFilter, keyFilter) <==> Wanted(Less, HasPrefix(keyFilter), None)(k) {
      PrefixInRange(k, keyFilter);
    }
  }
}

/**
 Following page tokens over a relation query, on both backends, while the store changes.
 */
module PagedRelations {
  import opened Wrappers
  import opened Order
  import opened Text
  import opened Rows
  import opened Paging
  import opened Relations
  import opened RelationStore
  import opened Reader

  /** A BoltDB client: one request per bucket state, each with the token the last answer carried. */
  ghost predicate BoltFollows<V(!new)>(
      keyFilter: string, accept: V -> bool, size: int, token: string,
      stores: seq<map<string, V>>, pages: seq<Page<string, V>>)
    decreases |pages|
  {
    && |stores| == |pages| > 0
    && "" !in stores[0]
    && pages[0] == Answer(stores[0], keyFilter, accept, token, size)
    && (|pages| > 1 ==>
          && TokenOf(pages[0].next) != ""
          && BoltFollows(keyFilter, accept, size, TokenOf(pages[0].next), stores[1..], pages[1..]))
  }

  lemma {:induction false} BoltFollowsTokens<V(!new)>(
      keyFilter: string, accept: V -> bool, size: int, token: string,
      stores: seq<map<string, V>>, pages: seq<Page<string, V>>)
    requires BoltFollows(keyFilter, accept, size, token, stores, pages)
    requires token == "" || keyFilter <= token
    ensures Follows(Less, HasPrefix(keyFilter), accept, size, StartOf(token), stores, pages)
    decreases |pages|
  {
    AnswerIsPage(stores[0], keyFilter, accept, token, size);
    if |pages| > 1 {
      TokenCarriesPrefix(stores[0], keyFilter, accept, token, size);
      BoltFollowsTokens(keyFilter, accept, size, TokenOf(pages[0].next), stores[1..], pages[1..]);
      assert pages[0].next == StartOf(TokenOf(pages[0].next));
    }
  }

  /** The states a relation query saw, and the tables they represent. */
  ghost predicate Snapshots(dir: Direction, stores: seq<map<string, Relation>>, tables: seq<Table>) {
    |stores| == |tables| && forall i :: 0 <= i < |stores| ==> IsIndex(dir, stores[i], tables[i])
  }

  /** Every relation handed out was stored, and accepted, when its page was cut; it sits under its own key. */
  lemma PagedRelationSound(
      dir: Direction, f: RelationFilter, size: int,
      stores: seq<map<string, Relation>>, tables: seq<Table>, pages: seq<Page<string, Relation>>, p: nat, i: nat)
    requires Snapshots(dir, stores, tables)
    requires BoltFollows(FilterPrefix(dir, f), AcceptRelation(f), size, "", stores, pages)
    requires p < |pages| && i < |pages[p].rows|
    ensures var r := pages[p].rows[i];
            && r.value.body in tables[p] && tables[p][r.value.body] == r.value
            && Accepts(f, r.value.body) && r.key == KeyOf(dir, r.value.body)
  {
    BoltFollowsTokens(FilterPrefix(dir, f), AcceptRelation(f), size, "", stores, pages);
    PagesSound(Less, HasPrefix(FilterPrefix(dir, f)), AcceptRelation(f), size, None, stores, pages, p, i);
    assert IsIndex(dir, stores[p], tables[p]);
  }

  /** Whatever is written between the requests, no relation is handed out twice. */
  lemma PagedRelationsDistinct(
      dir: Direction, f: RelationFilter, size: int,
      stores: seq<map<string, Relation>>, tables: seq<Table>, pages: seq<Page<string, Relation>>, i: nat, j: nat)
    requires Snapshots(dir, stores, tables)
    requires BoltFollows(FilterPrefix(dir, f), AcceptRelation(f), size, "", stores, pages)
    requires i < j < |Concat(pages)|
    ensures Less(Concat(pages)[i].key, Concat(pages)[j].key)
    ensures Concat(pages)[i].value.body != Concat(pages)[j].value.body
  {
    LessStrictTotal();
    BoltFollowsTokens(FilterPrefix(dir, f), AcceptRelation(f), size, "", stores, pages);
    PagesAscend(Less, HasPrefix(FilterPrefix(dir, f)), AcceptRelation(f), size, None, stores, pages);
    var p, pi := ConcatRow(pages, i);
    PagedRelationSound(dir, f, size, stores, tables, pages, p, pi);
    var q, qj := ConcatRow(pages, j);
    PagedRelationSound(dir, f, size, stores, tables, pages, q, qj);
  }

  /** And a matching relation that stayed in the store throughout is handed out. */
  lemma PagedRelationsComplete(
      dir: Direction, f: RelationFilter, size: int,
      stores: seq<map<string, Relation>>, tables: seq<Table>, pages: seq<Page<string, Relation>>, id: RelationId)
    requires Snapshots(dir, stores, tables)
    requires BoltFollows(FilterPrefix(dir, f), AcceptRelation(f), size, "", stores, pages) && Finished(pages)
    requires Accepts(f, id) && forall i :: 0 <= i < |tables| ==> id in tables[i]
    ensures exists n :: 0 <= n < |Concat(pages)| && Concat(pages)[n].value.body == id
  {
    LessStrictTotal();
    var prefix, key := FilterPrefix(dir, f), KeyOf(dir, id);
    BoltFollowsTokens(prefix, AcceptRelation(f), size, "", stores, pages);
    PrefixAdmits(dir, f, id);
    forall i | 0 <= i < |stores| ensures key in stores[i] && AcceptRelation(f)(stores[i][key]) {
      assert IsIndex(dir, stores[i], tables[i]) && id in tables[i];
    }
    PagesComplete(Less, HasPrefix(prefix), AcceptRelation(f), size, None, stores, pages, key);
    var n :| 0 <= n < |Concat(pages)| && Concat(pages)[n].key == key;
    var p, i := ConcatRow(pages, n);
    PagedRelationSound(dir, f, size, stores, tables, pages, p, i);
    var r := Concat(pages)[n];
    KeyInjective(dir, r.value.body, id) by {
      assert IsIndex(dir, stores[p], tables[p]) && IsIndex(dir, stores[0], tables[0]);
      assert id in tables[0] && r.value.body in tables[p];
    }
  }

  // ---- Postgres keyset pages ----

  /** Row-value comparison of the ordering columns under a column collation. */
  predicate ColumnsLess(lt: (string, string) -> bool, a: seq<string>, b: seq<string>) {
    if a == [] || b == [] then a == [] && b != []
    else lt(a[0], b[0]) || (a[0] == b[0] && ColumnsLess(lt, a[1..], b[1..]))
  }

  /** `orderCols` */
  function OrderColumns(dir: Direction, r: RelationId): seq<string> {
    if dir == BySubject
    then [r.subjectType, r.subjectId, r.relation, r.objectType, r.objectId, r.subjectRelation]
    else [r.objectType, r.objectId, r.relation, r.subjectType, r.subjectId, r.subjectRelation]
  }

  function RowOrder(lt: (string, string) -> bool, dir: Direction): (RelationId, RelationId) -> bool {
    (a, b) => ColumnsLess(lt, OrderColumns(dir, a), OrderColumns(dir, b))
  }

  lemma {:induction false} ColumnsIrreflexive(lt: (string, string) -> bool, a: seq<string>)
    requires StrictTotal(lt)
    ensures !ColumnsLess(lt, a, a)
    decreases |a|
  {
    if a != [] { ColumnsIrreflexive(lt, a[1..]); }
  }

  lemma {:induction false} ColumnsTransitive(lt: (string, string) -> bool, a: seq<string>, b: seq<string>, c: seq<string>)
    requires StrictTotal(lt) && ColumnsLess(lt, a, b) && ColumnsLess(lt, b, c)
    ensures ColumnsLess(lt, a, c)
    decreases |a|
  {
    if a != [] && b != [] && c != [] && a[0] == b[0] == c[0] {
      ColumnsTransitive(lt, a[1..], b[1..], c[1..]);
    }
  }

  lemma {:induction false} ColumnsTotal(lt: (string, string) -> bool, a: seq<string>, b: seq<string>)
    requires StrictTotal(lt)
    ensures a == b || ColumnsLess(lt, a, b) || ColumnsLess(lt, b, a)
    decreases |a|
  {
    if a != [] && b != [] && a[0] == b[0] {
      ColumnsTotal(lt, a[1..], b[1..]);
      assert a == [a[0]] + a[1..] && b == [b[0]] + b[1..];
    }
  }

  /** Whatever the collation, comparing rows column by column is a strict total order on identifiers. */
  lemma RowOrderTotal(lt: (string, string) -> bool, dir: Direction)
    requires StrictTotal(lt)
    ensures StrictTotal(RowOrder(lt, dir))
  {
    var less := RowOrder(lt, dir);
    forall a ensures !less(a, a) { ColumnsIrreflexive(lt, OrderColumns(dir, a)); }
    forall a, b, c | less(a, b) && less(b, c) ensures less(a, c) {
      ColumnsTransitive(lt, OrderColumns(dir, a), OrderColumns(dir, b), OrderColumns(dir, c));
    }
    forall a, b ensures a == b || less(a, b) || less(b, a) {
      ColumnsTotal(lt, OrderColumns(dir, a), OrderColumns(dir, b));
      if OrderColumns(dir, a) == OrderColumns(dir, b) {
        SameColumns(dir, a, b);
      }
    }
  }

  lemma SameColumns(dir: Direction, a: RelationId, b: RelationId)
    requires OrderColumns(dir, a) == OrderColumns(dir, b)
    ensures a == b
  {
    var x, y := OrderColumns(dir, a), OrderColumns(dir, b);
    assert x[0] == y[0] && x[1] == y[1] && x[2] == y[2] && x[3] == y[3] && x[4] == y[4] && x[5] == y[5];
  }

  /** A Postgres client: one request per table state, each resuming at the last token. */
  ghost predicate KeysetFollows(
      lt: (string, string) -> bool, dir: Direction, f: RelationFilter, size: int,
      stores: seq<Table>, pages: seq<Page<RelationId, Relation>>)
  {
    && StrictTotal(lt)
    && (forall i :: 0 <= i < |stores| ==> RowsKeyed(stores[i]))
    && Follows(RowOrder(lt, dir), AcceptId(f), AcceptRelation(f), size, None, stores, pages)
  }

  ghost predicate RowsKeyed(table: Table) {
    forall id :: id in table ==> table[id].body == id
  }

  /** Every relation handed out was stored, and accepted, in the table its page was cut from. */
  lemma KeysetRelationSound(
      lt: (string, string) -> bool, dir: Direction, f: RelationFilter, size: int,
      stores: seq<Table>, pages: seq<Page<RelationId, Relation>>, p: nat, i: nat)
    requires KeysetFollows(lt, dir, f, size, stores, pages) && p < |pages| && i < |pages[p].rows|
    ensures |stores| == |pages|
    ensures var r := pages[p].rows[i];
            r.value.body == r.key && r.key in stores[p] && stores[p][r.key] == r.value && Accepts(f, r.key)
  {
    PagesSound(RowOrder(lt, dir), AcceptId(f), AcceptRelation(f), size, None, stores, pages, p, i);
    assert RowsKeyed(stores[p]);
  }

  /** Whatever is written between the requests, rows come in strictly increasing order and none comes twice. */
  lemma KeysetRelationsDistinct(
      lt: (string, string) -> bool, dir: Direction, f: RelationFilter, size: int,
      stores: seq<Table>, pages: seq<Page<RelationId, Relation>>, i: nat, j: nat)
    requires KeysetFollows(lt, dir, f, size, stores, pages) && i < j < |Concat(pages)|
    ensures ColumnsLess(lt, OrderColumns(dir, Concat(pages)[i].value.body), OrderColumns(dir, Concat(pages)[j].value.body))
    ensures Concat(pages)[i].value.body != Concat(pages)[j].value.body
  {
    RowOrderTotal(lt, dir);
    PagesAscend(RowOrder(lt, dir), AcceptId(f), AcceptRelation(f), size, None, stores, pages);
    var p, pi := ConcatRow(pages, i);
    KeysetRelationSound(lt, dir, f, size, stores, pages, p, pi);
    var q, qj := ConcatRow(pages, j);
    KeysetRelationSound(lt, dir, f, size, stores, pages, q, qj);
    assert RowOrder(lt, dir)(Concat(pages)[i].key, Concat(pages)[j].key);
  }

  /** And a matching relation that stayed in the table throughout is handed out. */
  lemma KeysetRelationsComplete(
      lt: (string, string) -> bool, dir: Direction, f: RelationFilter, size: int,
      stores: seq<Table>, pages: seq<Page<RelationId, Relation>>, id: RelationId)
    requires KeysetFollows(lt, dir, f, size, stores, pages) && Finished(pages)
    requires Accepts(f, id) && forall i :: 0 <= i < |stores| ==> id in stores[i]
    ensures exists n :: 0 <= n < |Concat(pages)| && Concat(pages)[n].value.body == id
  {
    RowOrderTotal(lt, dir);
    forall i | 0 <= i < |stores| ensures id in stores[i] && AcceptRelation(f)(stores[i][id]) {
      assert RowsKeyed(stores[i]);
    }
    PagesComplete(RowOrder(lt, dir), AcceptId(f), AcceptRelation(f), size, None, stores, pages, id);
    var n :| 0 <= n < |Concat(pages)| && Concat(pages)[n].key == id;
    var p, i := ConcatRow(pages, n);
    KeysetRelationSound(lt, dir, f, size, stores, pages, p, i);
    assert Concat(pages)[n].value.body == id;
  }

  lemma KeysetRow(
      less: (RelationId, RelationId) -> bool, f: RelationFilter, size: int,
      stores: seq<Table>, pages: seq<Page<RelationId, Relation>>, table: Table, n: nat)
    requires Follows(less, AcceptId(f), AcceptRelation(f), size, None, stores, pages)
    requires Unchanged(stores, table) && n < |Concat(pages)|
    ensures var r := Concat(pages)[n]; r.key in table && table[r.key] == r.value && Accepts(f, r.key)
  {
    var p, i := ConcatRow(pages, n);
    PagesSound(less, AcceptId(f), AcceptRelation(f), size, None, stores, pages, p, i);
  }

  lemma KeysetFinds(
      less: (RelationId, RelationId) -> bool, f: RelationFilter, size: int,
      stores: seq<Table>, pages: seq<Page<RelationId, Relation>>, table: Table, id: RelationId)
    requires StrictTotal(less) && Follows(less, AcceptId(f), AcceptRelation(f), size, None, stores, pages)
    requires Finished(pages) && Unchanged(stores, table)
    requires id in table && table[id].body == id && Accepts(f, id)
    ensures table[id] in Values(Concat(pages))
  {
    PagesComplete(less, AcceptId(f), AcceptRelation(f), size, None, stores, pages, id);
    var n :| 0 <= n < |Concat(pages)| && Concat(pages)[n].key == id;
    KeysetRow(less, f, size, stores, pages, table, n);
    assert Values(Concat(pages))[n] == table[id];
  }

  /**
   On a table nobody writes to, the pages Postgres cuts with its `(columns) >= (token)` resume are
   together a complete answer to the query, under any row order.
   */
  lemma KeysetPagesAnswer(
      less: (RelationId, RelationId) -> bool, f: RelationFilter, size: int,
      stores: seq<Table>, pages: seq<Page<RelationId, Relation>>, table: Table)
    requires StrictTotal(less) && forall id :: id in table ==> table[id].body == id
    requires Follows(less, AcceptId(f), AcceptRelation(f), size, None, stores, pages)
    requires Finished(pages) && Unchanged(stores, table)
    ensures Answers(table, AcceptId(f), Values(Concat(pages)))
  {
    var rows := Concat(pages);
    var answer := Values(rows);
    forall rel: Relation ensures rel in answer <==> rel.body in table && table[rel.body] == rel && AcceptId(f)(rel.body) {
      if rel in answer {
        var n :| 0 <= n < |answer| && answer[n] == rel;
        KeysetRow(less, f, size, stores, pages, table, n);
      }
      if rel.body in table && table[rel.body] == rel && Accepts(f, rel.body) {
        KeysetFinds(less, f, size, stores, pages, table, rel.body);
      }
    }
    PagesAscend(less, AcceptId(f), AcceptRelation(f), size, None, stores, pages);
    forall i, j | 0 <= i < j < |answer| ensures answer[i] != answer[j] {
      KeysetRow(less, f, size, stores, pages, table, i);
      KeysetRow(less, f, size, stores, pages, table, j);
      assert less(rows[i].key, rows[j].key);
    }
  }

  /** The two backends, paged with any two page sizes, hand out the same relations. */
  lemma PagedBackendsAgree(
      lt: (string, string) -> bool, ix: Indexes, table: Table, dir: Direction, f: RelationFilter,
      boltSize: int, boltStores: seq<map<string, Relation>>, boltPages: seq<Page<string, Relation>>,
      pgSize: int, pgStores: seq<Table>, pgPages: seq<Page<RelationId, Relation>>)
    requires StrictTotal(lt) && Represents(ix, table)
    requires BoltFollows(FilterPrefix(dir, f), AcceptRelation(f), boltSize, "", boltStores, boltPages)
    requires Finished(boltPages) && Unchanged(boltStores, ix.Get(dir))
    requires Follows(RowOrder(lt, dir), AcceptId(f), AcceptRelation(f), pgSize, None, pgStores, pgPages)
    requires Finished(pgPages) && Unchanged(pgStores, table)
    ensures multiset(Values(Concat(boltPages))) == multiset(Values(Concat(pgPages)))
  {
    BoltFollowsTokens(FilterPrefix(dir, f), AcceptRelation(f), boltSize, "", boltStores, boltPages);
    BoltPagesAreTheScan(ix.Get(dir), FilterPrefix(dir, f), AcceptRelation(f), boltSize, boltStores, boltPages);
    BoltQueryExact(ix, table, dir, f);
    RowOrderTotal(lt, dir);
    KeysetPagesAnswer(RowOrder(lt, dir), f, pgSize, pgStores, pgPages, table);
    AnswersAgree(table, AcceptId(f), Values(Concat(boltPages)), Values(Concat(pgPages)));
  }
}

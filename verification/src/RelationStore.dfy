/**
 The relation table as BoltDB keeps it, in two ordered indexes, and as Postgres keeps it, as rows
 (internal/eds/pkg/bdb/relation_store.go, internal/eds/pkg/pgdb/relation_store.go).
 */
module RelationStore {
  import opened Order
  import opened Text
  import opened Rows
  import opened Relations
  import opened Scanner
  import opened Versioned
  import opened Watermark

  type Relation = Record<RelationId>

  /** The relations as a relational table, keyed by the full identifier: the reference form. */
  type Table = map<RelationId, Relation>

  /** The two buckets `relations_obj` and `relations_sub`. */
  datatype Indexes = Indexes(obj: map<string, Relation>, sub: map<string, Relation>) {
    function Get(dir: Direction): map<string, Relation> {
      if dir == BySubject then sub else obj
    }
  }

  datatype Op = Put(rel: Relation) | Remove(id: RelationId) | Reset

  predicate OpOk(op: Op) {
    match op
    case Put(rel) => WellFormed(rel.body)
    case Remove(id) => WellFormed(id)
    case Reset => true
  }

  function BoltApply(ix: Indexes, op: Op): Indexes {
    match op
    case Put(rel) => Indexes(ix.obj[ObjKey(rel.body) := rel], ix.sub[SubKey(rel.body) := rel])
    case Remove(id) => Indexes(ix.obj - {ObjKey(id)}, ix.sub - {SubKey(id)})
    case Reset => Indexes(map[], map[])
  }

  function TableApply(table: Table, op: Op): Table {
    match op
    case Put(rel) => table[rel.body := rel]
    case Remove(id) => table - {id}
    case Reset => map[]
  }

  function BoltRun(ops: seq<Op>): Indexes {
    if ops == [] then Indexes(map[], map[]) else BoltApply(BoltRun(ops[..|ops| - 1]), ops[|ops| - 1])
  }

  function TableRun(ops: seq<Op>): Table {
    if ops == [] then map[] else TableApply(TableRun(ops[..|ops| - 1]), ops[|ops| - 1])
  }

  /** The last write of the run that concerns the relation's identifier is the one at `i`, and it puts `rel`. */
  ghost predicate LastPut(ops: seq<Op>, i: nat, rel: Relation)
    requires i < |ops|
  {
    ops[i] == Put(rel) && forall j :: i < j < |ops| ==> !Concerns(ops[j], rel.body)
  }

  predicate Concerns(op: Op, id: RelationId) {
    match op
    case Put(rel) => rel.body == id
    case Remove(x) => x == id
    case Reset => true
  }

  /** What a run leaves, told from its writes: a row is there exactly when it was the last thing put for its identifier. */
  lemma {:induction false} RunLeaves(ops: seq<Op>, rel: Relation)
    ensures rel.body in TableRun(ops) && TableRun(ops)[rel.body] == rel
            <==> exists i :: 0 <= i < |ops| && LastPut(ops, i, rel)
    decreases |ops|
  {
    if ops != [] {
      var n := |ops| - 1;
      var before := ops[..n];
      RunLeaves(before, rel);
      if Concerns(ops[n], rel.body) {
        assert ops[n] == Put(rel) ==> LastPut(ops, n, rel);
      } else {
        forall i | 0 <= i < n ensures LastPut(before, i, rel) <==> LastPut(ops, i, rel) {
          assert forall j :: i < j < n ==> before[j] == ops[j];
          assert LastPut(ops, i, rel) ==> forall j :: i < j < n ==> !Concerns(before[j], rel.body);
        }
        if i :| 0 <= i < |before| && LastPut(before, i, rel) {
          assert LastPut(ops, i, rel);
        }
        if i :| 0 <= i < |ops| && LastPut(ops, i, rel) {
          assert LastPut(before, i, rel);
        }
      }
    }
  }

  /** Every row sits in the index, whole, under its own key. */
  ghost predicate HoldsAll(dir: Direction, index: map<string, Relation>, table: Table) {
    forall id :: id in table ==>
      WellFormed(id) && table[id].body == id && KeyOf(dir, id) in index && index[KeyOf(dir, id)] == table[id]
  }

  /** Nothing else sits in the index. */
  ghost predicate HoldsOnly(dir: Direction, index: map<string, Relation>, table: Table) {
    forall k :: k in index ==> index[k].body in table && table[index[k].body] == index[k] && k == KeyOf(dir, index[k].body)
  }

  ghost predicate IsIndex(dir: Direction, index: map<string, Relation>, table: Table) {
    HoldsAll(dir, index, table) && HoldsOnly(dir, index, table)
  }

  ghost predicate Represents(ix: Indexes, table: Table) {
    IsIndex(ByObject, ix.obj, table) && IsIndex(BySubject, ix.sub, table)
  }

  lemma SetKeepsIndex(dir: Direction, index: map<string, Relation>, table: Table, rel: Relation)
    requires IsIndex(dir, index, table) && WellFormed(rel.body)
    ensures IsIndex(dir, index[KeyOf(dir, rel.body) := rel], table[rel.body := rel])
  {
    forall id | id in table && id != rel.body ensures KeyOf(dir, id) != KeyOf(dir, rel.body) {
      KeyInjective(dir, id, rel.body);
    }
    forall k | k in index && k != KeyOf(dir, rel.body) ensures index[k].body != rel.body {
      assert k == KeyOf(dir, index[k].body);
    }
  }

  lemma DeleteKeepsIndex(dir: Direction, index: map<string, Relation>, table: Table, id: RelationId)
    requires IsIndex(dir, index, table) && WellFormed(id)
    ensures IsIndex(dir, index - {KeyOf(dir, id)}, table - {id})
  {
    forall x | x in table && x != id ensures KeyOf(dir, x) != KeyOf(dir, id) {
      KeyInjective(dir, x, id);
    }
    forall k | k in index && k != KeyOf(dir, id) ensures index[k].body != id {
      assert k == KeyOf(dir, index[k].body);
    }
  }

  /** One write keeps the two indexes a faithful image of the table. */
  lemma ApplyKeepsRepresents(ix: Indexes, table: Table, op: Op)
    requires Represents(ix, table) && OpOk(op)
    ensures Represents(BoltApply(ix, op), TableApply(table, op))
  {
    match op
    case Put(rel) =>
      SetKeepsIndex(ByObject, ix.obj, table, rel);
      SetKeepsIndex(BySubject, ix.sub, table, rel);
    case Remove(id) =>
      DeleteKeepsIndex(ByObject, ix.obj, table, id);
      DeleteKeepsIndex(BySubject, ix.sub, table, id);
    case Reset =>
  }

  /** Over every run of writes, both indexes hold exactly the rows the table would hold. */
  lemma {:induction false} RunsRepresent(ops: seq<Op>)
    requires forall i :: 0 <= i < |ops| ==> OpOk(ops[i])
    ensures Represents(BoltRun(ops), TableRun(ops))
    decreases |ops|
  {
    if ops != [] {
      var n := |ops| - 1;
      RunsRepresent(ops[..n]);
      ApplyKeepsRepresents(BoltRun(ops[..n]), TableRun(ops[..n]), ops[n]);
    }
  }

  /** So the two indexes always hold the same relations with the same values. */
  lemma IndexesAgree(ops: seq<Op>, rel: Relation)
    requires forall i :: 0 <= i < |ops| ==> OpOk(ops[i])
    ensures var ix := BoltRun(ops);
            && (rel in ix.obj.Values <==> rel in ix.sub.Values)
            && (ObjKey(rel.body) in ix.obj && ix.obj[ObjKey(rel.body)] == rel <==> rel in ix.obj.Values)
            && (SubKey(rel.body) in ix.sub && ix.sub[SubKey(rel.body)] == rel <==> rel in ix.sub.Values)
  {
    RunsRepresent(ops);
    var ix, table := BoltRun(ops), TableRun(ops);
    IndexValues(ByObject, ix.obj, table, rel);
    IndexValues(BySubject, ix.sub, table, rel);
  }

  lemma IndexValues(dir: Direction, index: map<string, Relation>, table: Table, rel: Relation)
    requires IsIndex(dir, index, table)
    ensures rel in index.Values <==> rel.body in table && table[rel.body] == rel
    ensures rel in index.Values <==> KeyOf(dir, rel.body) in index && index[KeyOf(dir, rel.body)] == rel
  {
    if rel in index.Values {
      var k :| k in index && index[k] == rel;
      assert k == KeyOf(dir, rel.body);
    }
  }

  /**
   Without the separator hypothesis: two relations written one after the other end up the same in
   both indexes exactly when their keys collide in both or in neither.
   */
  lemma TwoWritesAgreeIff(a: Relation, b: Relation)
    requires a.body != b.body
    ensures var ix := BoltApply(BoltApply(Indexes(map[], map[]), Put(a)), Put(b));
            ix.obj.Values == ix.sub.Values <==> (ObjKey(a.body) == ObjKey(b.body) <==> SubKey(a.body) == SubKey(b.body))
  {
    var ix := BoltApply(BoltApply(Indexes(map[], map[]), Put(a)), Put(b));
    TwoValues(ix.obj, ObjKey(a.body), a, ObjKey(b.body), b);
    TwoValues(ix.sub, SubKey(a.body), a, SubKey(b.body), b);
    assert a in {a, b} && a !in {b};
  }

  lemma TwoValues(m: map<string, Relation>, ka: string, a: Relation, kb: string, b: Relation)
    requires m == map[ka := a][kb := b]
    ensures m.Values == if ka == kb then {b} else {a, b}
  {
    assert m[kb] == b && (ka != kb ==> m[ka] == a);
  }

  /** A write that names only relations of the family. */
  ghost predicate Within(ids: iset<RelationId>, op: Op) {
    match op
    case Put(rel) => rel.body in ids
    case Remove(id) => id in ids
    case Reset => true
  }

  ghost predicate AllWithin(ids: iset<RelationId>, ops: seq<Op>) {
    forall i :: 0 <= i < |ops| ==> Within(ids, ops[i])
  }

  /** Any two relations of the family collide under both keys or under neither. */
  ghost predicate KeysAgree(ids: iset<RelationId>) {
    forall a, b :: a in ids && b in ids ==> (ObjKey(a) == ObjKey(b) <==> SubKey(a) == SubKey(b))
  }

  /** Each entry of one index sits under its own key and has its twin in the other. */
  ghost predicate Twinned(
      ids: iset<RelationId>, here: map<string, Relation>, dir: Direction, there: map<string, Relation>, other: Direction)
  {
    forall k :: k in here ==>
      && here[k].body in ids && k == KeyOf(dir, here[k].body)
      && KeyOf(other, here[k].body) in there && there[KeyOf(other, here[k].body)] == here[k]
  }

  lemma PutKeepsTwins(
      ids: iset<RelationId>, here: map<string, Relation>, dir: Direction, there: map<string, Relation>, other: Direction,
      rel: Relation)
    requires KeysAgree(ids) && dir != other && rel.body in ids && Twinned(ids, here, dir, there, other)
    ensures Twinned(ids, here[KeyOf(dir, rel.body) := rel], dir, there[KeyOf(other, rel.body) := rel], other)
  {
    forall k | k in here && k != KeyOf(dir, rel.body) ensures KeyOf(other, here[k].body) != KeyOf(other, rel.body) {
      assert here[k].body in ids;
    }
  }

  lemma RemoveKeepsTwins(
      ids: iset<RelationId>, here: map<string, Relation>, dir: Direction, there: map<string, Relation>, other: Direction,
      id: RelationId)
    requires KeysAgree(ids) && dir != other && id in ids && Twinned(ids, here, dir, there, other)
    ensures Twinned(ids, here - {KeyOf(dir, id)}, dir, there - {KeyOf(other, id)}, other)
  {
    forall k | k in here && k != KeyOf(dir, id) ensures KeyOf(other, here[k].body) != KeyOf(other, id) {
      assert here[k].body in ids;
    }
  }

  lemma {:induction false} RunsTwinned(ids: iset<RelationId>, ops: seq<Op>)
    requires KeysAgree(ids) && AllWithin(ids, ops)
    ensures var ix := BoltRun(ops);
            Twinned(ids, ix.obj, ByObject, ix.sub, BySubject) && Twinned(ids, ix.sub, BySubject, ix.obj, ByObject)
    decreases |ops|
  {
    if ops != [] {
      var n := |ops| - 1;
      var ix := BoltRun(ops[..n]);
      RunsTwinned(ids, ops[..n]);
      assert Within(ids, ops[n]);
      match ops[n]
      case Put(rel) =>
        PutKeepsTwins(ids, ix.obj, ByObject, ix.sub, BySubject, rel);
        PutKeepsTwins(ids, ix.sub, BySubject, ix.obj, ByObject, rel);
      case Remove(id) =>
        RemoveKeepsTwins(ids, ix.obj, ByObject, ix.sub, BySubject, id);
        RemoveKeepsTwins(ids, ix.sub, BySubject, ix.obj, ByObject, id);
      case Reset =>
    }
  }

  lemma TwinValues(
      ids: iset<RelationId>, here: map<string, Relation>, dir: Direction, there: map<string, Relation>, other: Direction,
      rel: Relation)
    requires Twinned(ids, here, dir, there, other) && rel in here.Values
    ensures rel in there.Values
  {
    var k :| k in here && here[k] == rel;
    assert there[KeyOf(other, rel.body)] == rel;
  }

  /** Over every run of writes that name only relations of the family, both indexes hold the same values. */
  ghost predicate AlwaysAgree(ids: iset<RelationId>) {
    forall ops :: AllWithin(ids, ops) ==> BoltRun(ops).obj.Values == BoltRun(ops).sub.Values
  }

  lemma TwoWritesRun(ids: iset<RelationId>, a: RelationId, b: RelationId)
    requires AlwaysAgree(ids) && a in ids && b in ids
    ensures ObjKey(a) == ObjKey(b) <==> SubKey(a) == SubKey(b)
  {
    if a != b {
      var x, y := Put(Record(a, "", ZERO, ZERO)), Put(Record(b, "", ZERO, ZERO));
      assert AllWithin(ids, [x, y]);
      assert [x, y][..1] == [x] && [x][..0] == [];
      assert BoltRun([x]) == BoltApply(Indexes(map[], map[]), x);
      TwoWritesAgreeIff(x.rel, y.rel);
    }
  }

  /**
   Without the separator hypothesis, the dual-index invariant holds over all runs on a family of
   relations if and only if any two of them collide under both keys or under neither.
   */
  lemma AlwaysAgreeIff(ids: iset<RelationId>)
    ensures AlwaysAgree(ids) <==> KeysAgree(ids)
  {
    if KeysAgree(ids) {
      forall ops | AllWithin(ids, ops) ensures BoltRun(ops).obj.Values == BoltRun(ops).sub.Values {
        var ix := BoltRun(ops);
        RunsTwinned(ids, ops);
        forall rel ensures rel in ix.obj.Values <==> rel in ix.sub.Values {
          if rel in ix.obj.Values { TwinValues(ids, ix.obj, ByObject, ix.sub, BySubject, rel); }
          if rel in ix.sub.Values { TwinValues(ids, ix.sub, BySubject, ix.obj, ByObject, rel); }
        }
      }
    }
    if AlwaysAgree(ids) {
      forall a, b | a in ids && b in ids ensures ObjKey(a) == ObjKey(b) <==> SubKey(a) == SubKey(b) {
        TwoWritesRun(ids, a, b);
      }
    }
  }

  // ---- Queries ----

  /** What Postgres keeps of the table: every populated filter field is one equality. */
  datatype Column = ObjectType | ObjectId | RelationName | SubjectType | SubjectId | SubjectRelation

  datatype Condition = Condition(column: Column, value: string)

  function Cell(id: RelationId, column: Column): string {
    match column
    case ObjectType => id.objectType
    case ObjectId => id.objectId
    case RelationName => id.relation
    case SubjectType => id.subjectType
    case SubjectId => id.subjectId
    case SubjectRelation => id.subjectRelation
  }

  /** The WHERE clause: all conditions hold. */
  predicate Satisfies(id: RelationId, conds: seq<Condition>) {
    forall i :: 0 <= i < |conds| ==> Cell(id, conds[i].column) == conds[i].value
  }

  /** The `add` closure of `relationConditions`. */
  method AddCondition(conds: seq<Condition>, column: Column, value: string) returns (r: seq<Condition>)
    ensures forall id :: Satisfies(id, r) <==> Satisfies(id, conds) && Cell(id, column) == value
  {
    r := conds + [Condition(column, value)];
    forall id ensures Satisfies(id, r) <==> Satisfies(id, conds) && Cell(id, column) == value {
      if Satisfies(id, r) {
        forall i | 0 <= i < |conds| ensures Cell(id, conds[i].column) == conds[i].value {
          assert r[i] == conds[i];
        }
        assert r[|conds|] == Condition(column, value);
      }
    }
  }

  /** `relationConditions`: the conditions hold of exactly the identifiers the value filter accepts. */
  method RelationConditions(f: RelationFilter) returns (conds: seq<Condition>)
    ensures forall id :: Satisfies(id, conds) <==> Accepts(f, id)
  {
    conds := [];
    if f.objectType != "" {
      conds := AddCondition(conds, ObjectType, f.objectType);
    }
    if f.objectId != "" {
      conds := AddCondition(conds, ObjectId, f.objectId);
    }
    if f.relation != "" {
      conds := AddCondition(conds, RelationName, f.relation);
    }
    if f.subjectType != "" {
      conds := AddCondition(conds, SubjectType, f.subjectType);
    }
    if f.subjectId != "" {
      conds := AddCondition(conds, SubjectId, f.subjectId);
    }
    if f.hasSubjectRelation {
      conds := AddCondition(conds, SubjectRelation, f.subjectRelation);
    }
  }

  /** `answer` lists each stored relation whose identifier `want` accepts, once, in any order. */
  ghost predicate Answers(table: Table, want: RelationId -> bool, answer: seq<Relation>) {
    && NoDuplicates(answer)
    && forall rel :: rel in answer <==> rel.body in table && table[rel.body] == rel && want(rel.body)
  }

  /** Two answers to one query differ at most in order. */
  lemma AnswersAgree(table: Table, want: RelationId -> bool, a: seq<Relation>, b: seq<Relation>)
    requires Answers(table, want, a) && Answers(table, want, b)
    ensures multiset(a) == multiset(b)
  {
    forall rel ensures multiset(a)[rel] == multiset(b)[rel] {
      CountsOnce(a, rel);
      CountsOnce(b, rel);
      assert rel in a <==> rel in b;
    }
  }

  lemma {:induction false} CountsOnce<T>(s: seq<T>, x: T)
    requires NoDuplicates(s)
    ensures multiset(s)[x] == if x in s then 1 else 0
    decreases |s|
  {
    if s != [] {
      var n := |s| - 1;
      assert s == s[..n] + [s[n]];
      CountsOnce(s[..n], x);
      assert s[n] !in s[..n];
    }
  }

  function AcceptRelation(f: RelationFilter): Relation -> bool {
    (rel: Relation) => Accepts(f, rel.body)
  }

  function AcceptId(f: RelationFilter): RelationId -> bool {
    id => Accepts(f, id)
  }

  /** The prefix scan of the chosen index, then the value filter. */
  function QueryRows(index: map<string, Relation>, dir: Direction, f: RelationFilter): seq<Row<string, Relation>> {
    var prefix := FilterPrefix(dir, f);
    Keep(ScanRows(index, prefix, prefix), AcceptRelation(f))
  }

  /** What BoltDB answers. */
  function BoltQuery(ix: Indexes, dir: Direction, f: RelationFilter): seq<Relation> {
    Values(QueryRows(ix.Get(dir), dir, f))
  }

  lemma QueryFinds(index: map<string, Relation>, table: Table, dir: Direction, f: RelationFilter, rel: Relation)
    requires IsIndex(dir, index, table)
    requires rel.body in table && table[rel.body] == rel && Accepts(f, rel.body)
    ensures HasRow(QueryRows(index, dir, f), Row(KeyOf(dir, rel.body), rel))
  {
    var prefix, key := FilterPrefix(dir, f), KeyOf(dir, rel.body);
    var rows := ScanRows(index, prefix, prefix);
    PrefixAdmits(dir, f, rel.body);
    PrefixInRange(key, prefix);
    ScanRowsCover(index, prefix, prefix, key);
    ScanRowsExact(index, prefix, prefix);
    var n :| 0 <= n < |rows| && rows[n].key == key;
    assert rows[n] == Row(key, rel);
    KeepHasRow(rows, AcceptRelation(f), Row(key, rel));
  }

  lemma QuerySound(index: map<string, Relation>, table: Table, dir: Direction, f: RelationFilter, i: nat)
    requires IsIndex(dir, index, table) && i < |QueryRows(index, dir, f)|
    ensures var r := QueryRows(index, dir, f)[i];
            && r.value.body in table && table[r.value.body] == r.value
            && Accepts(f, r.value.body) && r.key == KeyOf(dir, r.value.body)
  {
    var prefix := FilterPrefix(dir, f);
    var rows := ScanRows(index, prefix, prefix);
    var r := QueryRows(index, dir, f)[i];
    KeepHasRow(rows, AcceptRelation(f), r);
    ScanRowsExact(index, prefix, prefix);
    var n :| 0 <= n < |rows| && rows[n] == r;
    assert rows[n].key in index && rows[n].value == index[rows[n].key];
  }

  lemma QueryDistinct(index: map<string, Relation>, table: Table, dir: Direction, f: RelationFilter, i: nat, j: nat)
    requires IsIndex(dir, index, table) && i < j < |QueryRows(index, dir, f)|
    ensures QueryRows(index, dir, f)[i].value != QueryRows(index, dir, f)[j].value
  {
    var prefix := FilterPrefix(dir, f);
    QuerySound(index, table, dir, f, i);
    QuerySound(index, table, dir, f, j);
    assert Less(QueryRows(index, dir, f)[i].key, QueryRows(index, dir, f)[j].key) by {
      ScanRowsExact(index, prefix, prefix);
      KeepAscending(Less, ScanRows(index, prefix, prefix), AcceptRelation(f));
    }
  }

  lemma QueryMember(index: map<string, Relation>, table: Table, dir: Direction, f: RelationFilter, rel: Relation)
    requires IsIndex(dir, index, table)
    ensures rel in Values(QueryRows(index, dir, f)) <==>
            rel.body in table && table[rel.body] == rel && Accepts(f, rel.body)
  {
    if rel in Values(QueryRows(index, dir, f)) {
      var i := ValueAt(QueryRows(index, dir, f), rel);
      QuerySound(index, table, dir, f, i);
    }
    if rel.body in table && table[rel.body] == rel && Accepts(f, rel.body) {
      QueryFinds(index, table, dir, f, rel);
      RowValue(QueryRows(index, dir, f), Row(KeyOf(dir, rel.body), rel));
    }
  }

  /** The fast query answers exactly what the value filter accepts, whichever index it runs on. */
  lemma BoltQueryExact(ix: Indexes, table: Table, dir: Direction, f: RelationFilter)
    requires Represents(ix, table)
    ensures Answers(table, AcceptId(f), BoltQuery(ix, dir, f))
  {
    var index, answer := ix.Get(dir), BoltQuery(ix, dir, f);
    forall rel ensures rel in answer <==> rel.body in table && table[rel.body] == rel && AcceptId(f)(rel.body) {
      QueryMember(index, table, dir, f, rel);
    }
    forall i, j | 0 <= i < j < |answer| ensures answer[i] != answer[j] {
      QueryDistinct(index, table, dir, f, i, j);
    }
  }

  /**
   `ScanRelationsFiltered` on Postgres.  `selected` is what the SELECT returns: the rows that meet
   the WHERE clause, in an order the query leaves open.
   */
  method PostgresQuery(ghost table: Table, f: RelationFilter, conds: seq<Condition>, selected: seq<Relation>)
    returns (results: seq<Relation>)
    requires forall id :: Satisfies(id, conds) <==> Accepts(f, id)
    requires Answers(table, id => Satisfies(id, conds), selected)
    ensures Answers(table, AcceptId(f), results)
  {
    results := [];
    var c := 0;
    while c < |selected|
      invariant 0 <= c <= |selected|
      invariant results == selected[..c]
    {
      var m := selected[c];
      assert m in selected;
      if Accepts(f, m.body) {
        results := results + [m];
      }
      c := c + 1;
    }
    assert results == selected;
  }

  /**
   Both backends, driven through the same writes, give every query the same answer up to order:
   in either direction, for every filter.
   */
  lemma BackendsAgree(ops: seq<Op>, dir: Direction, f: RelationFilter, postgres: seq<Relation>)
    requires forall i :: 0 <= i < |ops| ==> OpOk(ops[i])
    requires Answers(TableRun(ops), AcceptId(f), postgres)
    ensures multiset(BoltQuery(BoltRun(ops), dir, f)) == multiset(postgres)
  {
    RunsRepresent(ops);
    BoltQueryExact(BoltRun(ops), TableRun(ops), dir, f);
    AnswersAgree(TableRun(ops), AcceptId(f), BoltQuery(BoltRun(ops), dir, f), postgres);
  }
}

/**
 The statistics tree: relation counts by object type, relation, subject type and subject relation
 (internal/eds/pkg/ds/stats.go).
 */
module Stats {
  import opened Order
  import opened Text
  import opened Relations
  import opened Scanner
  import opened Rows
  import opened RelationStore

  datatype SubjectTypeStat = SubjectTypeStat(count: nat, subjectRelations: map<string, nat>)

  datatype RelationStat = RelationStat(count: nat, subjectTypes: map<string, SubjectTypeStat>)

  datatype ObjectTypeStat = ObjectTypeStat(objCount: nat, count: nat, relations: map<string, RelationStat>)

  type Tree = map<string, ObjectTypeStat>

  /** The node a subject is counted under: wildcard subjects have one of their own. */
  function SubjectNode(r: RelationId): string {
    if r.subjectId == "*" then r.subjectType + ":*" else r.subjectType
  }

  /** Types never contain the separator, so a wildcard node is not the node of some other type. */
  lemma SubjectNodeExact(r: RelationId, s: RelationId)
    requires NameOk(r.subjectType) && NameOk(s.subjectType)
    ensures SubjectNode(r) == SubjectNode(s)
            <==> r.subjectType == s.subjectType && (r.subjectId == "*" <==> s.subjectId == "*")
  {
    var c := TYPE_ID_SEPARATOR;
    assert (r.subjectType + ":*")[|r.subjectType|] == c && (s.subjectType + ":*")[|s.subjectType|] == c;
    if SubjectNode(r) == SubjectNode(s) && r.subjectId == "*" && s.subjectId == "*" {
      assert r.subjectType + [c] + "*" == SubjectNode(r) && s.subjectType + [c] + "*" == SubjectNode(s);
      SplitUnique(r.subjectType, "*", s.subjectType, "*", c);
    }
  }

  // ---- Counting one relation ----

  function Get(m: map<string, nat>, k: string): nat {
    if k in m then m[k] else 0
  }

  function SubjectAt(m: map<string, SubjectTypeStat>, k: string): SubjectTypeStat {
    if k in m then m[k] else SubjectTypeStat(0, map[])
  }

  function RelationAt(m: map<string, RelationStat>, k: string): RelationStat {
    if k in m then m[k] else RelationStat(0, map[])
  }

  function TypeAt(m: Tree, k: string): ObjectTypeStat {
    if k in m then m[k] else ObjectTypeStat(0, 0, map[])
  }

  function IncSubject(st: SubjectTypeStat, subRel: string): SubjectTypeStat {
    SubjectTypeStat(st.count + 1,
      if subRel == "" then st.subjectRelations else st.subjectRelations[subRel := Get(st.subjectRelations, subRel) + 1])
  }

  function IncRelationStat(re: RelationStat, r: RelationId): RelationStat {
    var node := SubjectNode(r);
    RelationStat(re.count + 1, re.subjectTypes[node := IncSubject(SubjectAt(re.subjectTypes, node), r.subjectRelation)])
  }

  function IncType(ot: ObjectTypeStat, r: RelationId): ObjectTypeStat {
    ObjectTypeStat(ot.objCount, ot.count + 1, ot.relations[r.relation := IncRelationStat(RelationAt(ot.relations, r.relation), r)])
  }

  function IncRelation(tree: Tree, r: RelationId): Tree {
    tree[r.objectType := IncType(TypeAt(tree, r.objectType), r)]
  }

  function Tally(tree: Tree, rels: seq<RelationId>): Tree {
    if rels == [] then tree
    else IncRelation(Tally(tree, rels[..|rels| - 1]), rels[|rels| - 1])
  }

  /** `incRelation`, each nested map grown where it is first needed. */
  method CountRelation(tree: Tree, r: RelationId) returns (result: Tree)
    ensures result == IncRelation(tree, r)
  {
    var subType := r.subjectType;
    if r.subjectId == "*" {
      subType := subType + ":*";
    }
    var ot := if r.objectType in tree then tree[r.objectType] else ObjectTypeStat(0, 0, map[]);
    ot := ot.(count := ot.count + 1);
    var re := if r.relation in ot.relations then ot.relations[r.relation] else RelationStat(0, map[]);
    re := re.(count := re.count + 1);
    var st := if subType in re.subjectTypes then re.subjectTypes[subType] else SubjectTypeStat(0, map[]);
    st := st.(count := st.count + 1);
    if r.subjectRelation != "" {
      var sr := if r.subjectRelation in st.subjectRelations then st.subjectRelations[r.subjectRelation] else 0;
      st := st.(subjectRelations := st.subjectRelations[r.subjectRelation := sr + 1]);
    }
    re := re.(subjectTypes := re.subjectTypes[subType := st]);
    ot := ot.(relations := ot.relations[r.relation := re]);
    result := tree[r.objectType := ot];
  }

  /** `CountRelations`: one pass over the scan. */
  method CountRelations(tree: Tree, rels: seq<RelationId>) returns (result: Tree)
    ensures result == Tally(tree, rels)
  {
    result := tree;
    for i := 0 to |rels|
      invariant result == Tally(tree, rels[..i])
    {
      assert rels[..i + 1][..i] == rels[..i];
      result := CountRelation(result, rels[i]);
    }
    assert rels[..|rels|] == rels;
  }

  // ---- Counting objects ----

  function IncObject(tree: Tree, objectType: string): Tree {
    var ot := TypeAt(tree, objectType);
    tree[objectType := ot.(objCount := ot.objCount + 1)]
  }

  function TallyObjects(tree: Tree, types: seq<string>): Tree {
    if types == [] then tree else IncObject(TallyObjects(tree, types[..|types| - 1]), types[|types| - 1])
  }

  /** `CountObjects`: one pass over the scan of all objects, given by their types. */
  method CountObjects(tree: Tree, types: seq<string>) returns (result: Tree)
    ensures result == TallyObjects(tree, types)
  {
    result := tree;
    for i := 0 to |types|
      invariant result == TallyObjects(tree, types[..i])
    {
      assert types[..i + 1][..i] == types[..i];
      var ot := if types[i] in result then result[types[i]] else ObjectTypeStat(0, 0, map[]);
      ot := ot.(objCount := ot.objCount + 1);
      result := result[types[i] := ot];
    }
    assert types[..|types|] == types;
  }

  /** Each type's object count is the number of objects of that type; relation counts stay as they were. */
  lemma {:induction false} ObjectsCounted(tree: Tree, types: seq<string>, t: string)
    ensures TypeAt(TallyObjects(tree, types), t).objCount == TypeAt(tree, t).objCount + multiset(types)[t]
    ensures forall node :: CountAt(TallyObjects(tree, types), node) == CountAt(tree, node)
    decreases |types|
  {
    if types != [] {
      var n := |types| - 1;
      assert types == types[..n] + [types[n]];
      ObjectsCounted(tree, types[..n], t);
    }
  }

  /** And counting relations leaves the object counts alone. */
  lemma {:induction false} ObjectCountsKept(tree: Tree, rels: seq<RelationId>, t: string)
    ensures TypeAt(Tally(tree, rels), t).objCount == TypeAt(tree, t).objCount
    decreases |rels|
  {
    if rels != [] {
      ObjectCountsKept(tree, rels[..|rels| - 1], t);
    }
  }

  // ---- Every node counts what it should ----

  /** A node of the tree: a path of one to four names. */
  datatype Node =
    | OfType(objectType: string)
    | OfRelation(objectType: string, relation: string)
    | OfSubject(objectType: string, relation: string, subject: string)
    | OfSubjectRelation(objectType: string, relation: string, subject: string, subjectRelation: string)

  function CountAt(tree: Tree, node: Node): nat {
    var ot := TypeAt(tree, node.objectType);
    match node
    case OfType(_) => ot.count
    case OfRelation(_, rel) => RelationAt(ot.relations, rel).count
    case OfSubject(_, rel, sub) => SubjectAt(RelationAt(ot.relations, rel).subjectTypes, sub).count
    case OfSubjectRelation(_, rel, sub, sr) =>
      Get(SubjectAt(RelationAt(ot.relations, rel).subjectTypes, sub).subjectRelations, sr)
  }

  predicate Under(node: Node, r: RelationId) {
    match node
    case OfType(t) => r.objectType == t
    case OfRelation(t, rel) => r.objectType == t && r.relation == rel
    case OfSubject(t, rel, sub) => r.objectType == t && r.relation == rel && SubjectNode(r) == sub
    case OfSubjectRelation(t, rel, sub, sr) =>
      r.objectType == t && r.relation == rel && SubjectNode(r) == sub && r.subjectRelation == sr && sr != ""
  }

  function Count(node: Node, rels: seq<RelationId>): nat {
    if rels == [] then 0
    else Count(node, rels[..|rels| - 1]) + (if Under(node, rels[|rels| - 1]) then 1 else 0)
  }

  lemma IncCounts(tree: Tree, r: RelationId, node: Node)
    ensures CountAt(IncRelation(tree, r), node) == CountAt(tree, node) + (if Under(node, r) then 1 else 0)
  {
  }

  /** Counting raises every node of the tree by the number of relations under it. */
  lemma {:induction false} TallyCounts(tree: Tree, rels: seq<RelationId>, node: Node)
    ensures CountAt(Tally(tree, rels), node) == CountAt(tree, node) + Count(node, rels)
    decreases |rels|
  {
    if rels != [] {
      var n := |rels| - 1;
      TallyCounts(tree, rels[..n], node);
      IncCounts(Tally(tree, rels[..n]), rels[n], node);
    }
  }

  ghost function Matching(node: Node, rels: seq<RelationId>): set<RelationId> {
    set r | r in rels && Under(node, r)
  }

  lemma MatchingNext(node: Node, rels: seq<RelationId>, r: RelationId)
    ensures Matching(node, rels + [r]) == Matching(node, rels) + (if Under(node, r) then {r} else {})
  {
    forall x ensures x in Matching(node, rels + [r])
                     <==> x in Matching(node, rels) + (if Under(node, r) then {r} else {}) {
      assert x in rels + [r] <==> x in rels || x == r;
    }
  }

  lemma {:induction false} CountIsSize(node: Node, rels: seq<RelationId>)
    requires NoDuplicates(rels)
    ensures Count(node, rels) == |Matching(node, rels)|
    decreases |rels|
  {
    if rels != [] {
      var n := |rels| - 1;
      CountIsSize(node, rels[..n]);
      assert rels[n] !in rels[..n];
      assert rels == rels[..n] + [rels[n]];
      MatchingNext(node, rels[..n], rels[n]);
    }
  }

  function Bodies(rels: seq<Relation>): (ids: seq<RelationId>)
    ensures |ids| == |rels| && forall i :: 0 <= i < |rels| ==> ids[i] == rels[i].body
  {
    if rels == [] then [] else [rels[0].body] + Bodies(rels[1..])
  }

  /** The identifiers the scan of all relations hands to the counter. */
  function ScannedIds(index: map<string, Relation>): seq<RelationId> {
    Bodies(Values(ScanRows(index, "", "")))
  }

  lemma ScannedStored(index: map<string, Relation>, table: Table, i: nat)
    requires IsIndex(ByObject, index, table) && i < |ScannedIds(index)|
    ensures ScannedIds(index)[i] in table && ScanRows(index, "", "")[i].key == ObjKey(ScannedIds(index)[i])
  {
    ScanRowsSound(index, "", "", i);
  }

  lemma StoredScanned(index: map<string, Relation>, table: Table, r: RelationId)
    requires IsIndex(ByObject, index, table) && r in table
    ensures r in ScannedIds(index)
  {
    var rows := ScanRows(index, "", "");
    PrefixInRange(ObjKey(r), "");
    ScanRowsCover(index, "", "", ObjKey(r));
    var i :| 0 <= i < |rows| && rows[i].key == ObjKey(r);
    ScanRowsSound(index, "", "", i);
    assert ScannedIds(index)[i] == r;
  }

  /** They are those of every stored relation, once each. */
  lemma ScannedAll(index: map<string, Relation>, table: Table)
    requires IsIndex(ByObject, index, table)
    ensures NoDuplicates(ScannedIds(index)) && forall r :: r in ScannedIds(index) <==> r in table
  {
    var rows, ids := ScanRows(index, "", ""), ScannedIds(index);
    forall i, j | 0 <= i < j < |ids| ensures ids[i] != ids[j] {
      ScanRowsAscend(index, "", "");
      ScannedStored(index, table, i);
      ScannedStored(index, table, j);
      assert Less(rows[i].key, rows[j].key);
    }
    forall r ensures r in ids <==> r in table {
      if r in ids {
        var i :| 0 <= i < |ids| && ids[i] == r;
        ScannedStored(index, table, i);
      }
      if r in table {
        StoredScanned(index, table, r);
      }
    }
  }

  lemma ListedExact(table: Table, rels: seq<RelationId>, node: Node)
    requires NoDuplicates(rels) && forall r :: r in rels <==> r in table
    ensures CountAt(Tally(map[], rels), node) == |set r | r in table && Under(node, r)|
  {
    TallyCounts(map[], rels, node);
    CountIsSize(node, rels);
    assert Matching(node, rels) == (set r | r in table && Under(node, r));
  }

  /**
   `CalculateStats`, for every store: after counting the objects and then scanning all relations, a
   node's count is the number of stored relations under it, and a type's object count the number of its objects.
   */
  lemma StatsExact(index: map<string, Relation>, table: Table, types: seq<string>, node: Node)
    requires IsIndex(ByObject, index, table)
    ensures var stats := Tally(TallyObjects(map[], types), ScannedIds(index));
            && CountAt(stats, node) == |set r | r in table && Under(node, r)|
            && TypeAt(stats, node.objectType).objCount == multiset(types)[node.objectType]
  {
    var ids := ScannedIds(index);
    var objects := TallyObjects(map[], types);
    ScannedAll(index, table);
    ListedExact(table, ids, node);
    TallyCounts(map[], ids, node);
    TallyCounts(objects, ids, node);
    ObjectsCounted(map[], types, node.objectType);
    ObjectCountsKept(objects, ids, node.objectType);
  }

  /** Wildcard subjects are counted under the type's `:*` node, all others under the type itself. */
  lemma WildcardsSplit(index: map<string, Relation>, table: Table, types: seq<string>, t: string, rel: string, st: string)
    requires IsIndex(ByObject, index, table) && NameOk(st)
    ensures var stats := Tally(TallyObjects(map[], types), ScannedIds(index));
            && CountAt(stats, OfSubject(t, rel, st))
               == |set r | r in table && r.objectType == t && r.relation == rel && r.subjectType == st && r.subjectId != "*"|
            && CountAt(stats, OfSubject(t, rel, st + ":*"))
               == |set r | r in table && r.objectType == t && r.relation == rel && r.subjectType == st && r.subjectId == "*"|
  {
    StatsExact(index, table, types, OfSubject(t, rel, st));
    StatsExact(index, table, types, OfSubject(t, rel, st + ":*"));
    forall r | r in table
      ensures SubjectNode(r) == st <==> r.subjectType == st && r.subjectId != "*"
      ensures SubjectNode(r) == st + ":*" <==> r.subjectType == st && r.subjectId == "*"
    {
      NodeOf(r, st);
    }
    assert (set r | r in table && Under(OfSubject(t, rel, st), r))
           == set r | r in table && r.objectType == t && r.relation == rel && r.subjectType == st && r.subjectId != "*";
    assert (set r | r in table && Under(OfSubject(t, rel, st + ":*"), r))
           == set r | r in table && r.objectType == t && r.relation == rel && r.subjectType == st && r.subjectId == "*";
  }

  lemma NodeOf(r: RelationId, st: string)
    requires WellFormed(r) && NameOk(st)
    ensures SubjectNode(r) == st <==> r.subjectType == st && r.subjectId != "*"
    ensures SubjectNode(r) == st + ":*" <==> r.subjectType == st && r.subjectId == "*"
  {
    var plain := r.(subjectType := st, subjectId := "");
    var wild := r.(subjectType := st, subjectId := "*");
    SubjectNodeExact(r, plain);
    SubjectNodeExact(r, wild);
  }

  // ---- Children add up ----

  /** The sum of a measure over a map's values. */
  function Total<X>(m: map<string, X>, f: X -> nat): nat
    decreases |m|
  {
    if m == map[] then 0 else
    assert m.Keys != {};
    var k := Least(m.Keys);
    f(m[k]) + Total(m - {k}, f)
  }

  lemma {:induction false} TotalRemove<X>(m: map<string, X>, k: string, f: X -> nat)
    requires k in m
    ensures Total(m, f) == f(m[k]) + Total(m - {k}, f)
    decreases |m|
  {
    var l := Least(m.Keys);
    if l != k {
      TotalRemove(m - {l}, k, f);
      var rest := m - {k};
      assert IsLeast(rest.Keys, l) by { assert l in rest.Keys; }
      LeastUnique(rest.Keys, l);
      assert m - {l} - {k} == rest - {l};
    }
  }

  lemma LeastUnique(s: set<string>, l: string)
    requires IsLeast(s, l)
    ensures Least(s) == l
  {
    LessStrictTotal();
  }

  lemma TotalUpdate<X>(m: map<string, X>, k: string, x: X, f: X -> nat)
    ensures Total(m[k := x], f) + (if k in m then f(m[k]) else 0) == Total(m, f) + f(x)
  {
    TotalRemove(m[k := x], k, f);
    if k in m {
      TotalRemove(m, k, f);
      assert m[k := x] - {k} == m - {k};
    } else {
      assert m[k := x] - {k} == m;
    }
  }

  function SubjectCount(): SubjectTypeStat -> nat { (st: SubjectTypeStat) => st.count }

  function RelationCount(): RelationStat -> nat { (re: RelationStat) => re.count }

  function Identity(): nat -> nat { (n: nat) => n }

  ghost predicate SubjectOk(st: SubjectTypeStat) {
    Total<nat>(st.subjectRelations, Identity()) <= st.count
  }

  ghost predicate RelationOk(re: RelationStat) {
    && Total(re.subjectTypes, SubjectCount()) == re.count
    && forall k :: k in re.subjectTypes ==> SubjectOk(re.subjectTypes[k])
  }

  ghost predicate TypeOk(ot: ObjectTypeStat) {
    && Total(ot.relations, RelationCount()) == ot.count
    && forall k :: k in ot.relations ==> RelationOk(ot.relations[k])
  }

  ghost predicate TreeOk(tree: Tree) {
    forall k :: k in tree ==> TypeOk(tree[k])
  }

  lemma BumpTotal(m: map<string, nat>, k: string)
    ensures Total<nat>(m[k := Get(m, k) + 1], Identity()) == Total<nat>(m, Identity()) + 1
  {
    var n: nat := Get(m, k) + 1;
    TotalUpdate<nat>(m, k, n, Identity());
  }

  lemma SubjectStep(st: SubjectTypeStat, subRel: string)
    requires SubjectOk(st)
    ensures SubjectOk(IncSubject(st, subRel))
  {
    BumpTotal(st.subjectRelations, subRel);
  }

  lemma RelationStep(re: RelationStat, r: RelationId)
    requires RelationOk(re)
    ensures RelationOk(IncRelationStat(re, r))
  {
    var node := SubjectNode(r);
    var st := SubjectAt(re.subjectTypes, node);
    SubjectStep(st, r.subjectRelation);
    TotalUpdate(re.subjectTypes, node, IncSubject(st, r.subjectRelation), SubjectCount());
  }

  lemma TypeStep(ot: ObjectTypeStat, r: RelationId)
    requires TypeOk(ot)
    ensures TypeOk(IncType(ot, r))
  {
    var re := RelationAt(ot.relations, r.relation);
    RelationStep(re, r);
    TotalUpdate(ot.relations, r.relation, IncRelationStat(re, r), RelationCount());
  }

  lemma {:induction false} ObjectsAddUp(types: seq<string>)
    ensures TreeOk(TallyObjects(map[], types))
    decreases |types|
  {
    if types != [] {
      ObjectsAddUp(types[..|types| - 1]);
    }
  }

  /**
   In the tree of any objects and relations, the relation counts of a type add up to the type's, the
   subject counts of a relation to the relation's, and the subject-relation counts of a subject to at
   most the subject's.
   */
  lemma {:induction false} ChildrenAddUp(types: seq<string>, rels: seq<RelationId>)
    ensures TreeOk(Tally(TallyObjects(map[], types), rels))
    decreases |rels|
  {
    if rels == [] {
      ObjectsAddUp(types);
    } else {
      var n := |rels| - 1;
      ChildrenAddUp(types, rels[..n]);
      TypeStep(TypeAt(Tally(TallyObjects(map[], types), rels[..n]), rels[n].objectType), rels[n]);
    }
  }
}

/**
 `GetRelation`: looking up one relation by a scan without a value filter
 (internal/eds/pkg/directory/v3/reader.go).
 */
module SingleRelation {
  import opened Text
  import opened Rows
  import opened Relations
  import opened Scanner
  import opened Versioned
  import opened Watermark
  import opened RelationStore
  import opened Directory

  datatype Single = KeyNotFound | MultipleResults | Found(rel: Relation)

  function One(rels: seq<Relation>): Single {
    if |rels| == 0 then KeyNotFound else if |rels| != 1 then MultipleResults else Found(rels[0])
  }

  /** What the scan of the chosen index comes back with. */
  function Scanned(index: map<string, Relation>, dir: Direction, f: RelationFilter): seq<Relation> {
    Values(ScanRows(index, FilterPrefix(dir, f), FilterPrefix(dir, f)))
  }

  method GetRelation(index: map<string, Relation>, dir: Direction, f: RelationFilter) returns (r: Single)
    ensures r == One(Scanned(index, dir, f))
  {
    var iter := new ScanIterator(index, "", FilterPrefix(dir, f));
    var rels := Drain(iter);
    if |rels| == 0 {
      return KeyNotFound;
    }
    if |rels| != 1 {
      return MultipleResults;
    }
    return Found(rels[0]);
  }

  function UnderPrefix(dir: Direction, f: RelationFilter): RelationId -> bool {
    id => FilterPrefix(dir, f) <= KeyOf(dir, id)
  }

  lemma ScannedAnswers(index: map<string, Relation>, table: Table, dir: Direction, f: RelationFilter)
    requires IsIndex(dir, index, table)
    ensures Answers(table, UnderPrefix(dir, f), Scanned(index, dir, f))
  {
    var prefix := FilterPrefix(dir, f);
    var rows, rels := ScanRows(index, prefix, prefix), Scanned(index, dir, f);
    forall rel: Relation
      ensures rel in rels <==> rel.body in table && table[rel.body] == rel && UnderPrefix(dir, f)(rel.body)
    {
      ScannedExact(dir, index, table, prefix, rel);
    }
    forall i, j | 0 <= i < j < |rels| ensures rels[i] != rels[j] {
      ScanRowsSound(index, prefix, prefix, i);
      ScanRowsSound(index, prefix, prefix, j);
      assert Less(rows[i].key, rows[j].key) by { ScanRowsAscend(index, prefix, prefix); }
    }
  }

  /** A wider query answers like a narrower one exactly when it finds nothing the narrower one leaves out. */
  lemma WiderAnswers(table: Table, wide: RelationId -> bool, narrow: RelationId -> bool, a: seq<Relation>, b: seq<Relation>)
    requires Answers(table, wide, a) && Answers(table, narrow, b)
    requires forall id :: id in table ==> table[id].body == id && (narrow(id) ==> wide(id))
    ensures multiset(a) == multiset(b) <==> forall id :: id in table && wide(id) ==> narrow(id)
  {
    if forall id :: id in table && wide(id) ==> narrow(id) {
      assert Answers(table, narrow, a);
      AnswersAgree(table, narrow, a, b);
    }
    if multiset(a) == multiset(b) {
      forall id | id in table && wide(id) ensures narrow(id) {
        assert table[id] in a;
        assert table[id] in multiset(a);
        assert table[id] in b;
      }
    }
  }

  lemma SameOne(a: seq<Relation>, b: seq<Relation>)
    requires multiset(a) == multiset(b)
    ensures One(a) == One(b)
  {
    assert |a| == |multiset(a)| == |multiset(b)| == |b|;
    if |a| == 1 {
      assert a[0] in multiset(b);
    }
  }

  /** At least two stored relations match the filter. */
  ghost predicate Several(table: Table, f: RelationFilter) {
    exists x, y :: x in table && y in table && x != y && Accepts(f, x) && Accepts(f, y)
  }

  lemma TwoListed(rels: seq<Relation>, x: Relation, y: Relation)
    requires x in rels && y in rels && x != y
    ensures |rels| >= 2
  {
    var i :| 0 <= i < |rels| && rels[i] == x;
    var j :| 0 <= j < |rels| && rels[j] == y;
  }

  lemma SeveralListed(table: Table, f: RelationFilter, answer: seq<Relation>)
    requires Answers(table, AcceptId(f), answer) && forall id :: id in table ==> table[id].body == id
    ensures Several(table, f) <==> |answer| >= 2
  {
    if |answer| >= 2 {
      assert answer[0] in answer && answer[1] in answer && answer[0] != answer[1];
    }
    if Several(table, f) {
      var x, y :| x in table && y in table && x != y && Accepts(f, x) && Accepts(f, y);
      assert AcceptId(f)(x) && AcceptId(f)(y);
      assert table[x] in answer && table[y] in answer;
      TwoListed(answer, table[x], table[y]);
    }
  }

  /** A wider answer that holds something more gives another reply, unless both replies are the error for several. */
  lemma WiderReply(wide: seq<Relation>, narrow: seq<Relation>, extra: Relation)
    requires forall rel :: rel in narrow ==> rel in wide
    requires extra in wide && extra !in narrow
    ensures One(wide) == One(narrow) <==> |narrow| >= 2
  {
    if |narrow| >= 1 {
      assert narrow[0] in narrow;
      TwoListed(wide, extra, narrow[0]);
    }
  }

  /** Every stored relation under the filter's key prefix is one the filter accepts. */
  ghost predicate PrefixTells(table: Table, dir: Direction, f: RelationFilter) {
    forall id :: id in table && UnderPrefix(dir, f)(id) ==> Accepts(f, id)
  }

  /**
   BoltDB's lookup replies what Postgres' does if and only if every stored relation under the
   filter's key prefix is one the filter accepts, or two or more match and both report an error.
   */
  lemma GetRelationAgreesIff(
      index: map<string, Relation>, table: Table, dir: Direction, f: RelationFilter, postgres: seq<Relation>)
    requires IsIndex(dir, index, table) && Answers(table, AcceptId(f), postgres)
    ensures One(Scanned(index, dir, f)) == One(postgres) <==> PrefixTells(table, dir, f) || Several(table, f)
  {
    var bolt := Scanned(index, dir, f);
    ScannedAnswers(index, table, dir, f);
    SeveralListed(table, f, postgres);
    forall id | id in table && AcceptId(f)(id) ensures UnderPrefix(dir, f)(id) {
      PrefixAdmits(dir, f, id);
    }
    if PrefixTells(table, dir, f) {
      WiderAnswers(table, UnderPrefix(dir, f), AcceptId(f), bolt, postgres);
      SameOne(bolt, postgres);
    } else {
      var id :| id in table && UnderPrefix(dir, f)(id) && !Accepts(f, id);
      assert table[id] in bolt && table[id] !in postgres;
      WiderReply(bolt, postgres, table[id]);
    }
  }

  // ---- The prefix in fields ----

  /** The id that comes last in the key. */
  function LastId(dir: Direction, r: RelationId): string {
    if dir == BySubject then r.objectId else r.subjectId
  }

  function FilterLastId(dir: Direction, f: RelationFilter): string {
    if dir == BySubject then f.objectId else f.subjectId
  }

  /** All fields but the subject relation are set, and free of separators where it matters. */
  predicate FullFilter(f: RelationFilter) {
    && IsSet(f.objectType) && IsSet(f.objectId) && IsSet(f.relation) && IsSet(f.subjectType) && IsSet(f.subjectId)
    && NameOk(f.objectType) && IdOk(f.objectId) && NameOk(f.relation) && NameOk(f.subjectType) && IdOk(f.subjectId)
  }

  /** The relation agrees with the filter in every field before the last id. */
  predicate SameHead(dir: Direction, f: RelationFilter, r: RelationId) {
    && r.objectType == f.objectType && r.relation == f.relation && r.subjectType == f.subjectType
    && (if dir == BySubject then r.subjectId == f.subjectId else r.objectId == f.objectId)
  }

  /** An id is a prefix of another with its optional suffix exactly when it is a prefix of the other id. */
  lemma TailPrefix(i: string, i': string, sr: string)
    requires IdOk(i)
    ensures i <= i' + Suffix(sr) <==> i <= i'
  {
    var s := i' + Suffix(sr);
    assert sr != "" ==> s[|i'|] == INSTANCE_SEPARATOR;
    if i <= s {
      assert forall k :: 0 <= k < |i| ==> i[k] == s[k];
      assert i == s[..|i|];
    }
    if i <= i' {
      assert i == i'[..|i|] == s[..|i|];
    }
  }

  /** What follows the leading type and id in a filter's prefix. */
  function FilterRest(f3: string, f4: string, f5: string): string {
    if !IsSet(f3) then "" else f3 + [INSTANCE_SEPARATOR] + FilterLast(f4, f5)
  }

  function FilterLast(f4: string, f5: string): string {
    if !IsSet(f4) then "" else f4 + [TYPE_ID_SEPARATOR] + (if IsSet(f5) then f5 else "")
  }

  lemma JoinFilterNested(f1: string, f2: string, f3: string, f4: string, f5: string)
    requires IsSet(f1) && IsSet(f2)
    ensures JoinFilter(f1, f2, f3, f4, f5)
            == f1 + [TYPE_ID_SEPARATOR] + (f2 + [INSTANCE_SEPARATOR] + FilterRest(f3, f4, f5))
  {
    var b := [INSTANCE_SEPARATOR];
    var anchor := f1 + [TYPE_ID_SEPARATOR] + f2 + b;
    assert JoinFilter(f1, f2, f3, f4, f5) == anchor + FilterRest(f3, f4, f5);
  }

  lemma JoinAnyPrefix(
      f1: string, f2: string, f3: string, f4: string, f5: string,
      t1: string, i1: string, rel: string, t2: string, tail: string)
    requires NameOk(f1) && IdOk(f2) && NameOk(f3) && NameOk(f4) && IsSet(f1) && IsSet(f2)
    requires NameOk(t1) && IdOk(i1) && NameOk(rel) && NameOk(t2)
    ensures JoinFilter(f1, f2, f3, f4, f5) <= JoinKey(t1, i1, rel, t2, tail)
            <==> && f1 == t1 && f2 == i1
                 && (IsSet(f3) ==> f3 == rel)
                 && (IsSet(f3) && IsSet(f4) ==> f4 == t2)
                 && (IsSet(f3) && IsSet(f4) && IsSet(f5) ==> f5 <= tail)
  {
    var c, b := TYPE_ID_SEPARATOR, INSTANCE_SEPARATOR;
    var last := if IsSet(f5) then f5 else "";
    JoinKeyNested(t1, i1, rel, t2, tail);
    JoinFilterNested(f1, f2, f3, f4, f5);
    SplitPrefix(f1, f2 + [b] + FilterRest(f3, f4, f5), t1, i1 + [b] + (rel + [b] + (t2 + [c] + tail)), c);
    SplitPrefix(f2, FilterRest(f3, f4, f5), i1, rel + [b] + (t2 + [c] + tail), b);
    SplitPrefix(f3, FilterLast(f4, f5), rel, t2 + [c] + tail, b);
    SplitPrefix(f4, last, t2, tail, c);
  }

  /** The prefix of any filter whose leading type and id are set, in fields: the next ones count up to the first unset. */
  lemma UnderPrefixIff(dir: Direction, f: RelationFilter, r: RelationId)
    requires WellFormed(r) && NameOk(f.objectType) && IdOk(f.objectId) && NameOk(f.relation)
    requires NameOk(f.subjectType) && IdOk(f.subjectId)
    ensures dir == ByObject && IsSet(f.objectType) && IsSet(f.objectId) ==>
              (UnderPrefix(dir, f)(r) <==>
                 && f.objectType == r.objectType && f.objectId == r.objectId
                 && (IsSet(f.relation) ==> f.relation == r.relation)
                 && (IsSet(f.relation) && IsSet(f.subjectType) ==> f.subjectType == r.subjectType)
                 && (IsSet(f.relation) && IsSet(f.subjectType) && IsSet(f.subjectId) ==> f.subjectId <= r.subjectId))
    ensures dir == BySubject && IsSet(f.subjectType) && IsSet(f.subjectId) ==>
              (UnderPrefix(dir, f)(r) <==>
                 && f.subjectType == r.subjectType && f.subjectId == r.subjectId
                 && (IsSet(f.relation) ==> f.relation == r.relation)
                 && (IsSet(f.relation) && IsSet(f.objectType) ==> f.objectType == r.objectType)
                 && (IsSet(f.relation) && IsSet(f.objectType) && IsSet(f.objectId) ==> f.objectId <= r.objectId))
  {
    if dir == ByObject && IsSet(f.objectType) && IsSet(f.objectId) {
      JoinAnyPrefix(f.objectType, f.objectId, f.relation, f.subjectType, f.subjectId,
                    r.objectType, r.objectId, r.relation, r.subjectType, r.subjectId + Suffix(r.subjectRelation));
      TailPrefix(f.subjectId, r.subjectId, r.subjectRelation);
    }
    if dir == BySubject && IsSet(f.subjectType) && IsSet(f.subjectId) {
      JoinAnyPrefix(f.subjectType, f.subjectId, f.relation, f.objectType, f.objectId,
                    r.subjectType, r.subjectId, r.relation, r.objectType, r.objectId + Suffix(r.subjectRelation));
      TailPrefix(f.objectId, r.objectId, r.subjectRelation);
    }
  }

  /** With all fields set, under the prefix means: the same head, and a last id that starts with the filter's. */
  lemma UnderFullPrefix(dir: Direction, f: RelationFilter, r: RelationId)
    requires FullFilter(f) && WellFormed(r)
    ensures UnderPrefix(dir, f)(r) <==> SameHead(dir, f, r) && FilterLastId(dir, f) <= LastId(dir, r)
  {
    UnderPrefixIff(dir, f, r);
  }

  /**
   So what BoltDB finds and the filter rejects is, in fields: a relation that agrees in the head and
   whose last id properly extends the one asked for, or is that id with another subject relation.
   */
  lemma WronglyFoundIff(dir: Direction, f: RelationFilter, r: RelationId)
    requires FullFilter(f) && WellFormed(r)
    ensures UnderPrefix(dir, f)(r) && !Accepts(f, r) <==>
            && SameHead(dir, f, r) && FilterLastId(dir, f) <= LastId(dir, r)
            && (FilterLastId(dir, f) != LastId(dir, r) || (f.hasSubjectRelation && r.subjectRelation != f.subjectRelation))
  {
    UnderFullPrefix(dir, f, r);
  }

  /**
   The failing family, on any store and in either direction.  The one stored relation under the
   prefix has a last id that goes on after the one asked for: BoltDB finds it, Postgres finds nothing.
   */
  lemma LongerIdFound(index: map<string, Relation>, table: Table, dir: Direction, f: RelationFilter, id: RelationId)
    requires IsIndex(dir, index, table) && FullFilter(f) && id in table
    requires SameHead(dir, f, id) && FilterLastId(dir, f) <= LastId(dir, id) && FilterLastId(dir, f) != LastId(dir, id)
    requires forall x :: x in table && UnderPrefix(dir, f)(x) ==> x == id
    ensures One(Scanned(index, dir, f)) == Found(table[id])
    ensures Answers(table, AcceptId(f), []) && One([]) == KeyNotFound
  {
    var bolt := Scanned(index, dir, f);
    ScannedAnswers(index, table, dir, f);
    WronglyFoundIff(dir, f, id);
    assert table[id] in bolt;
    assert |bolt| >= 2 ==> bolt[0] in bolt && bolt[1] in bolt && bolt[0] != bolt[1];
    forall x | x in table ensures !Accepts(f, x) {
      if Accepts(f, x) { PrefixAdmits(dir, f, x); }
    }
  }

  /** One such store: asked for `b`, it holds `bb` only. */
  lemma LongerIdWitness()
    ensures var bb := Record(RelationId("d", "1", "o", "u", "bb", ""), "", ZERO, ZERO);
            var f := RelationFilter("d", "1", "o", "u", "b", "", false);
            One(Scanned(map[ObjKey(bb.body) := bb], ByObject, f)) == Found(bb)
            && Answers(map[bb.body := bb], AcceptId(f), [])
  {
    var bb := Record(RelationId("d", "1", "o", "u", "bb", ""), "", ZERO, ZERO);
    LetterSet('d');
    LetterSet('1');
    LetterSet('o');
    LetterSet('u');
    LetterSet('b');
    LongerIdFound(map[ObjKey(bb.body) := bb], map[bb.body := bb], ByObject,
                  RelationFilter("d", "1", "o", "u", "b", "", false), bb.body);
  }

  lemma LetterSet(c: char)
    requires !IsSpace(c)
    ensures IsSet([c])
  {
    assert [c][0] == c;
  }
}

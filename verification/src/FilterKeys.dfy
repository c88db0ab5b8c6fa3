/**
 The names objects and relations go by in the sync filter
 (internal/eds/pkg/datasync/directory.go).

 Both kinds go into one filter, under strings joined with `:`, `#` and `@`.  Ids may hold any of
 these, and then two different items can share a name.
 */
module FilterKeys {
  import opened Text
  import opened Relations

  datatype ItemKey = ObjectItem(objectType: string, objectId: string) | RelationItem(id: RelationId)

  /** `getObjectKey` and `getRelationKey`: the names items go by in the filter. */
  function FilterKey(key: ItemKey): string {
    match key
    case ObjectItem(t, i) => t + ":" + i
    case RelationItem(r) =>
      r.objectType + ":" + r.objectId + "#" + r.relation + "@" + r.subjectType + ":" + r.subjectId
      + (if r.subjectRelation == "" then "" else "#" + r.subjectRelation)
  }

  /** A name without any of the filter's separators. */
  predicate PlainName(s: string) {
    ':' !in s && '#' !in s && '@' !in s
  }

  /** Types and relation names are plain; nothing is said about ids. */
  predicate PlainNames(key: ItemKey) {
    match key
    case ObjectItem(t, _) => PlainName(t)
    case RelationItem(r) =>
      PlainName(r.objectType) && PlainName(r.relation) && PlainName(r.subjectType) && PlainName(r.subjectRelation)
  }

  /** No id holds a `#`. */
  predicate HashFree(key: ItemKey) {
    match key
    case ObjectItem(_, i) => '#' !in i
    case RelationItem(r) => '#' !in r.objectId && '#' !in r.subjectId
  }

  /** A relation's name in the filter, after the object type, is its head and its tail. */
  function Head(r: RelationId): string {
    r.objectId + ['#'] + (r.relation + ['@'] + (r.subjectType + [':']))
  }

  function Tail(r: RelationId): string {
    r.subjectId + (if r.subjectRelation == "" then "" else ['#'] + r.subjectRelation)
  }

  lemma RelationKeySplit(r: RelationId)
    ensures FilterKey(RelationItem(r)) == r.objectType + [':'] + (Head(r) + Tail(r))
  {
    assert "#" == ['#'];
  }

  /** The subject relation of `r` reads as part of the subject id of `s`. */
  predicate TailHides(r: RelationId, s: RelationId) {
    r.subjectRelation != "" && s.subjectRelation == "" && s.subjectId == r.subjectId + ['#'] + r.subjectRelation
  }

  /** The object id of `s` goes on into what is relation and subject in `r`. */
  predicate HeadHides(r: RelationId, s: RelationId) {
    Head(r) <= s.objectId && Tail(r) == s.objectId[|Head(r)|..] + (Head(s) + Tail(s))[|s.objectId|..]
  }

  /** Two different items that go by one name, in fields. */
  predicate Confusable(a: ItemKey, b: ItemKey) {
    match (a, b)
    case (ObjectItem(_, _), ObjectItem(_, _)) => false
    case (ObjectItem(t, i), RelationItem(r)) => t == r.objectType && i == Head(r) + Tail(r)
    case (RelationItem(r), ObjectItem(t, i)) => t == r.objectType && i == Head(r) + Tail(r)
    case (RelationItem(r), RelationItem(s)) =>
      r.objectType == s.objectType &&
      (|| HeadHides(r, s) || HeadHides(s, r)
       || (r.objectId == s.objectId && r.relation == s.relation && r.subjectType == s.subjectType
           && (TailHides(r, s) || TailHides(s, r))))
  }

  lemma TailEqualIff(r: RelationId, s: RelationId)
    requires '#' !in r.subjectRelation && '#' !in s.subjectRelation
    ensures Tail(r) == Tail(s) <==>
            (r.subjectId == s.subjectId && r.subjectRelation == s.subjectRelation) || TailHides(r, s) || TailHides(s, r)
  {
    assert r.subjectRelation == "" ==> Tail(r) == r.subjectId;
    assert s.subjectRelation == "" ==> Tail(s) == s.subjectId;
    if r.subjectRelation != "" && s.subjectRelation != "" && Tail(r) == Tail(s) {
      assert Tail(r) == r.subjectId + ['#'] + r.subjectRelation && Tail(s) == s.subjectId + ['#'] + s.subjectRelation;
      SplitUniqueLast(r.subjectId, r.subjectRelation, s.subjectId, s.subjectRelation, '#');
    } else if r.subjectRelation != "" && s.subjectRelation == "" {
      assert Tail(r) == r.subjectId + ['#'] + r.subjectRelation && Tail(s) == s.subjectId;
    } else if r.subjectRelation == "" && s.subjectRelation != "" {
      assert Tail(s) == s.subjectId + ['#'] + s.subjectRelation && Tail(r) == r.subjectId;
    }
  }

  /** With equal object ids, the rest is told apart up to the tail. */
  lemma SameObjectId(r: RelationId, s: RelationId)
    requires PlainNames(RelationItem(r)) && PlainNames(RelationItem(s)) && r.objectId == s.objectId
    ensures Head(r) + Tail(r) == Head(s) + Tail(s)
            <==> r.relation == s.relation && r.subjectType == s.subjectType && Tail(r) == Tail(s)
  {
    if Head(r) + Tail(r) == Head(s) + Tail(s) {
      var rd, sd := r.subjectType + [':'] + Tail(r), s.subjectType + [':'] + Tail(s);
      var n := |r.objectId| + 1;
      assert (Head(r) + Tail(r))[n..] == r.relation + ['@'] + rd;
      assert (Head(s) + Tail(s))[n..] == s.relation + ['@'] + sd;
      SplitUnique(r.relation, rd, s.relation, sd, '@');
      SplitUnique(r.subjectType, Tail(r), s.subjectType, Tail(s), ':');
    }
  }

  /** Behind the object id the head holds one `#` only. */
  lemma HeadHash(r: RelationId, k: nat)
    requires PlainNames(RelationItem(r)) && |r.objectId| < k < |Head(r)|
    ensures Head(r)[k] != '#'
  {
    var rest := r.relation + ['@'] + (r.subjectType + [':']);
    assert Head(r)[k] == rest[k - |r.objectId| - 1];
  }

  /** With a shorter object id on one side, the names are equal exactly when the longer id hides the rest. */
  lemma ShorterObjectId(r: RelationId, s: RelationId)
    requires PlainNames(RelationItem(r)) && |r.objectId| < |s.objectId|
    ensures Head(r) + Tail(r) == Head(s) + Tail(s) <==> HeadHides(r, s)
  {
    var x, y := Head(r) + Tail(r), Head(s) + Tail(s);
    var n := |s.objectId|;
    assert y == s.objectId + y[n..] && y[n] == '#';
    if x == y {
      assert n < |Head(r)| ==> x[n] == Head(r)[n];
      if n < |Head(r)| {
        HeadHash(r, n);
      }
      assert s.objectId == y[..n] == x[..n];
      assert Head(r) == x[..|Head(r)|];
      assert Tail(r) == x[|Head(r)|..];
    }
    if HeadHides(r, s) {
      assert s.objectId == Head(r) + s.objectId[|Head(r)|..];
      assert x == Head(r) + (s.objectId[|Head(r)|..] + y[n..]);
    }
  }

  lemma NotHidden(r: RelationId, s: RelationId)
    requires |s.objectId| <= |r.objectId|
    ensures !HeadHides(r, s)
  {
  }

  lemma RelationKeysEqualIff(r: RelationId, s: RelationId)
    requires PlainNames(RelationItem(r)) && PlainNames(RelationItem(s))
    ensures FilterKey(RelationItem(r)) == FilterKey(RelationItem(s))
            <==> r == s || Confusable(RelationItem(r), RelationItem(s))
  {
    RelationKeySplit(r);
    RelationKeySplit(s);
    if FilterKey(RelationItem(r)) == FilterKey(RelationItem(s)) {
      SplitUnique(r.objectType, Head(r) + Tail(r), s.objectType, Head(s) + Tail(s), ':');
    }
    if |r.objectId| == |s.objectId| {
      NotHidden(r, s);
      NotHidden(s, r);
      SameLength(r, s);
      if r.objectId == s.objectId {
        SameObjectId(r, s);
        TailEqualIff(r, s);
      }
    } else if |r.objectId| < |s.objectId| {
      NotHidden(s, r);
      ShorterObjectId(r, s);
    } else {
      NotHidden(r, s);
      ShorterObjectId(s, r);
    }
  }

  lemma SameLength(r: RelationId, s: RelationId)
    requires |r.objectId| == |s.objectId|
    ensures Head(r) + Tail(r) == Head(s) + Tail(s) ==> r.objectId == s.objectId
  {
    assert (Head(r) + Tail(r))[..|r.objectId|] == r.objectId;
    assert (Head(s) + Tail(s))[..|s.objectId|] == s.objectId;
  }

  lemma ObjectRelationKeysEqualIff(t: string, i: string, r: RelationId)
    requires PlainName(t) && PlainNames(RelationItem(r))
    ensures FilterKey(ObjectItem(t, i)) == FilterKey(RelationItem(r)) <==> Confusable(ObjectItem(t, i), RelationItem(r))
  {
    RelationKeySplit(r);
    assert FilterKey(ObjectItem(t, i)) == t + [':'] + i;
    if FilterKey(ObjectItem(t, i)) == FilterKey(RelationItem(r)) {
      SplitUnique(t, i, r.objectType, Head(r) + Tail(r), ':');
    }
  }

  /** With plain names and any ids, two items go by one name exactly when they are the same or confusable. */
  lemma FilterKeyEqualIff(a: ItemKey, b: ItemKey)
    requires PlainNames(a) && PlainNames(b)
    ensures FilterKey(a) == FilterKey(b) <==> a == b || Confusable(a, b)
  {
    match (a, b)
    case (ObjectItem(t, i), ObjectItem(t', i')) =>
      assert FilterKey(a) == t + [':'] + i && FilterKey(b) == t' + [':'] + i';
      if FilterKey(a) == FilterKey(b) {
        SplitUnique(t, i, t', i', ':');
      }
    case (RelationItem(r), RelationItem(s)) => RelationKeysEqualIff(r, s);
    case (ObjectItem(t, i), RelationItem(s)) => ObjectRelationKeysEqualIff(t, i, s);
    case (RelationItem(r), ObjectItem(t, i)) => ObjectRelationKeysEqualIff(t, i, r);
  }

  lemma HeadHasHash(r: RelationId)
    ensures '#' in Head(r)
  {
    assert Head(r)[|r.objectId|] == '#';
  }

  /** Without a `#` in an id nothing is confusable: different items go by different names. */
  lemma FilterKeyInjective(a: ItemKey, b: ItemKey)
    requires PlainNames(a) && PlainNames(b) && HashFree(a) && HashFree(b)
    ensures FilterKey(a) == FilterKey(b) <==> a == b
  {
    FilterKeyEqualIff(a, b);
    if a.RelationItem? { HeadHasHash(a.id); }
    if b.RelationItem? { HeadHasHash(b.id); }
  }

  /** The colliding family: an object whose id spells out a relation goes by the relation's name. */
  lemma HashCollision(t: string, i: string, rel: string, st: string, j: string)
    ensures FilterKey(ObjectItem(t, i + "#" + rel + "@" + st + ":" + j))
            == FilterKey(RelationItem(RelationId(t, i, rel, st, j, "")))
  {
    var id := i + "#" + rel + "@" + st + ":" + j;
    assert t + ":" + id == t + ":" + i + "#" + rel + "@" + st + ":" + j + "";
  }
}

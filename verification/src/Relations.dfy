/**
 Relation identifiers, their two index keys, and relation filters
 (internal/eds/pkg/bdb/relation_store.go, internal/eds/pkg/bdb/keys.go,
 internal/eds/pkg/ds/relation.go, internal/eds/pkg/store/store.go).
 */
module Relations {
  import opened Text

  const TYPE_ID_SEPARATOR: char := ':'
  const INSTANCE_SEPARATOR: char := '|'

  datatype RelationId = RelationId(
    objectType: string, objectId: string, relation: string,
    subjectType: string, subjectId: string, subjectRelation: string)

  datatype Direction = ByObject | BySubject

  datatype RelationFilter = RelationFilter(
    objectType: string, objectId: string, relation: string,
    subjectType: string, subjectId: string, subjectRelation: string, hasSubjectRelation: bool)

  /** The filter with no field set. */
  const EmptyFilter := RelationFilter("", "", "", "", "", "", false)

  /** What the request validators leave through: no separator in a name, no `|` in an id. */
  predicate NameOk(s: string) {
    TYPE_ID_SEPARATOR !in s && INSTANCE_SEPARATOR !in s
  }

  predicate IdOk(s: string) {
    INSTANCE_SEPARATOR !in s
  }

  /** Everything but the subject id and subject relation is free of separators where it matters. */
  predicate FrameOk(r: RelationId) {
    NameOk(r.objectType) && IdOk(r.objectId) && NameOk(r.relation) && NameOk(r.subjectType)
  }

  predicate WellFormed(r: RelationId) {
    FrameOk(r) && IdOk(r.subjectId) && NameOk(r.subjectRelation)
  }

  /** `objectKey`: type:id */
  function ObjectKey(objectType: string, objectId: string): string {
    objectType + [TYPE_ID_SEPARATOR] + objectId
  }

  function Suffix(subjectRelation: string): string {
    if subjectRelation == "" then "" else [INSTANCE_SEPARATOR] + subjectRelation
  }

  /** obj_type:obj_id|relation|sub_type:sub_id(|sub_relation) */
  function ObjKey(r: RelationId): string {
    JoinKey(r.objectType, r.objectId, r.relation, r.subjectType, r.subjectId + Suffix(r.subjectRelation))
  }

  /** sub_type:sub_id|relation|obj_type:obj_id(|sub_relation) */
  function SubKey(r: RelationId): string {
    JoinKey(r.subjectType, r.subjectId, r.relation, r.objectType, r.objectId + Suffix(r.subjectRelation))
  }

  function JoinKey(t1: string, i1: string, rel: string, t2: string, tail: string): string {
    t1 + [TYPE_ID_SEPARATOR] + i1 + [INSTANCE_SEPARATOR] + rel + [INSTANCE_SEPARATOR] + t2 + [TYPE_ID_SEPARATOR] + tail
  }

  lemma JoinKeyNested(t1: string, i1: string, rel: string, t2: string, tail: string)
    ensures JoinKey(t1, i1, rel, t2, tail) ==
            t1 + [TYPE_ID_SEPARATOR]
            + (i1 + [INSTANCE_SEPARATOR] + (rel + [INSTANCE_SEPARATOR] + (t2 + [TYPE_ID_SEPARATOR] + tail)))
  {
  }

  /** The buffer the key and filter writers append to. */
  class Buffer {
    var text: string

    constructor ()
      ensures text == ""
    {
      text := "";
    }

    method WriteString(s: string)
      modifies this
      ensures text == old(text) + s
    {
      text := text + s;
    }

    method WriteByte(c: char)
      modifies this
      ensures text == old(text) + [c]
    {
      text := text + [c];
    }
  }

  method WriteObjKey(buf: Buffer, r: RelationId)
    modifies buf
    ensures buf.text == old(buf.text) + ObjKey(r)
  {
    ghost var start := buf.text;
    buf.WriteString(r.objectType);
    buf.WriteByte(TYPE_ID_SEPARATOR);
    ghost var k := r.objectType + [TYPE_ID_SEPARATOR];
    assert buf.text == start + k;
    buf.WriteString(r.objectId);
    buf.WriteByte(INSTANCE_SEPARATOR);
    k := k + r.objectId + [INSTANCE_SEPARATOR];
    assert buf.text == start + k;
    buf.WriteString(r.relation);
    buf.WriteByte(INSTANCE_SEPARATOR);
    k := k + r.relation + [INSTANCE_SEPARATOR];
    assert buf.text == start + k;
    buf.WriteString(r.subjectType);
    buf.WriteByte(TYPE_ID_SEPARATOR);
    k := k + r.subjectType + [TYPE_ID_SEPARATOR];
    assert buf.text == start + k;
    buf.WriteString(r.subjectId);
    if r.subjectRelation != "" {
      buf.WriteByte(INSTANCE_SEPARATOR);
      buf.WriteString(r.subjectRelation);
    }
    assert buf.text == start + (k + (r.subjectId + Suffix(r.subjectRelation)));
  }

  method WriteSubKey(buf: Buffer, r: RelationId)
    modifies buf
    ensures buf.text == old(buf.text) + SubKey(r)
  {
    ghost var start := buf.text;
    buf.WriteString(r.subjectType);
    buf.WriteByte(TYPE_ID_SEPARATOR);
    ghost var k := r.subjectType + [TYPE_ID_SEPARATOR];
    assert buf.text == start + k;
    buf.WriteString(r.subjectId);
    buf.WriteByte(INSTANCE_SEPARATOR);
    k := k + r.subjectId + [INSTANCE_SEPARATOR];
    assert buf.text == start + k;
    buf.WriteString(r.relation);
    buf.WriteByte(INSTANCE_SEPARATOR);
    k := k + r.relation + [INSTANCE_SEPARATOR];
    assert buf.text == start + k;
    buf.WriteString(r.objectType);
    buf.WriteByte(TYPE_ID_SEPARATOR);
    k := k + r.objectType + [TYPE_ID_SEPARATOR];
    assert buf.text == start + k;
    buf.WriteString(r.objectId);
    if r.subjectRelation != "" {
      buf.WriteByte(INSTANCE_SEPARATOR);
      buf.WriteString(r.subjectRelation);
    }
    assert buf.text == start + (k + (r.objectId + Suffix(r.subjectRelation)));
  }

  method ObjKeyOf(r: RelationId) returns (key: string)
    ensures key == ObjKey(r)
  {
    var buf := new Buffer();
    WriteObjKey(buf, r);
    key := buf.text;
    assert key == "" + ObjKey(r);
  }

  method SubKeyOf(r: RelationId) returns (key: string)
    ensures key == SubKey(r)
  {
    var buf := new Buffer();
    WriteSubKey(buf, r);
    key := buf.text;
    assert key == "" + SubKey(r);
  }

  /**
   The prefix of the index keys a filter's leading fields select: nothing unless the leading type
   and id are both set, and then as many of the following fields as are set without a gap.
   */
  function JoinFilter(t1: string, i1: string, rel: string, t2: string, i2: string): string {
    if !IsSet(t1) || !IsSet(i1) then "" else
    var anchor := t1 + [TYPE_ID_SEPARATOR] + i1 + [INSTANCE_SEPARATOR];
    if !IsSet(rel) then anchor else
    var named := anchor + rel + [INSTANCE_SEPARATOR];
    if !IsSet(t2) then named else
    var typed := named + t2 + [TYPE_ID_SEPARATOR];
    if !IsSet(i2) then typed else typed + i2
  }

  function FilterPrefix(dir: Direction, f: RelationFilter): string {
    if dir == BySubject
    then JoinFilter(f.subjectType, f.subjectId, f.relation, f.objectType, f.objectId)
    else JoinFilter(f.objectType, f.objectId, f.relation, f.subjectType, f.subjectId)
  }

  method WriteObjFilter(buf: Buffer, f: RelationFilter)
    modifies buf
    ensures buf.text == old(buf.text) + FilterPrefix(ByObject, f)
  {
    if !IsSet(f.objectType) || !IsSet(f.objectId) {
      return;
    }
    ghost var start := buf.text;
    buf.WriteString(f.objectType);
    buf.WriteByte(TYPE_ID_SEPARATOR);
    buf.WriteString(f.objectId);
    buf.WriteByte(INSTANCE_SEPARATOR);
    ghost var k := f.objectType + [TYPE_ID_SEPARATOR] + f.objectId + [INSTANCE_SEPARATOR];
    assert buf.text == start + k;
    if !IsSet(f.relation) {
      return;
    }
    buf.WriteString(f.relation);
    buf.WriteByte(INSTANCE_SEPARATOR);
    k := k + f.relation + [INSTANCE_SEPARATOR];
    assert buf.text == start + k;
    if !IsSet(f.subjectType) {
      return;
    }
    buf.WriteString(f.subjectType);
    buf.WriteByte(TYPE_ID_SEPARATOR);
    k := k + f.subjectType + [TYPE_ID_SEPARATOR];
    assert buf.text == start + k;
    if !IsSet(f.subjectId) {
      return;
    }
    buf.WriteString(f.subjectId);
    assert buf.text == start + (k + f.subjectId);
  }

  method WriteSubFilter(buf: Buffer, f: RelationFilter)
    modifies buf
    ensures buf.text == old(buf.text) + FilterPrefix(BySubject, f)
  {
    if !IsSet(f.subjectType) || !IsSet(f.subjectId) {
      return;
    }
    ghost var start := buf.text;
    buf.WriteString(f.subjectType);
    buf.WriteByte(TYPE_ID_SEPARATOR);
    buf.WriteString(f.subjectId);
    buf.WriteByte(INSTANCE_SEPARATOR);
    ghost var k := f.subjectType + [TYPE_ID_SEPARATOR] + f.subjectId + [INSTANCE_SEPARATOR];
    assert buf.text == start + k;
    if !IsSet(f.relation) {
      return;
    }
    buf.WriteString(f.relation);
    buf.WriteByte(INSTANCE_SEPARATOR);
    k := k + f.relation + [INSTANCE_SEPARATOR];
    assert buf.text == start + k;
    if !IsSet(f.objectType) {
      return;
    }
    buf.WriteString(f.objectType);
    buf.WriteByte(TYPE_ID_SEPARATOR);
    k := k + f.objectType + [TYPE_ID_SEPARATOR];
    assert buf.text == start + k;
    if !IsSet(f.objectId) {
      return;
    }
    buf.WriteString(f.objectId);
    assert buf.text == start + (k + f.objectId);
  }

  function KeyOf(dir: Direction, r: RelationId): string {
    if dir == BySubject then SubKey(r) else ObjKey(r)
  }

  /** `valueFilter`: every field the filter carries matches; a field is carried when non-empty. */
  predicate Accepts(f: RelationFilter, r: RelationId) {
    && (f.objectType != "" ==> r.objectType == f.objectType)
    && (f.objectId != "" ==> r.objectId == f.objectId)
    && (f.relation != "" ==> r.relation == f.relation)
    && (f.subjectType != "" ==> r.subjectType == f.subjectType)
    && (f.subjectId != "" ==> r.subjectId == f.subjectId)
    && (f.hasSubjectRelation ==> r.subjectRelation == f.subjectRelation)
  }

  /**
   Each field of a filter speaks for itself, whatever the others are: clearing it leaves the filter
   less the one demand it made.  Without any field everything is accepted.
   */
  lemma AcceptsByField(f: RelationFilter, r: RelationId)
    ensures Accepts(f, r) <==> Accepts(f.(objectType := ""), r) && (f.objectType == "" || r.objectType == f.objectType)
    ensures Accepts(f, r) <==> Accepts(f.(objectId := ""), r) && (f.objectId == "" || r.objectId == f.objectId)
    ensures Accepts(f, r) <==> Accepts(f.(relation := ""), r) && (f.relation == "" || r.relation == f.relation)
    ensures Accepts(f, r) <==> Accepts(f.(subjectType := ""), r) && (f.subjectType == "" || r.subjectType == f.subjectType)
    ensures Accepts(f, r) <==> Accepts(f.(subjectId := ""), r) && (f.subjectId == "" || r.subjectId == f.subjectId)
    ensures Accepts(f, r) <==> Accepts(f.(hasSubjectRelation := false), r)
                               && (!f.hasSubjectRelation || r.subjectRelation == f.subjectRelation)
    ensures Accepts(EmptyFilter, r)
  {
  }

  /** `ObjectOnlyFilter` */
  function ObjectOnlyFilter(dir: Direction, objectType: string, objectId: string): RelationFilter {
    if dir == BySubject
    then EmptyFilter.(subjectType := objectType, subjectId := objectId)
    else EmptyFilter.(objectType := objectType, objectId := objectId)
  }

  /** The type and id a relation names on the side `dir`. */
  predicate Names(dir: Direction, r: RelationId, objectType: string, objectId: string) {
    if dir == BySubject
    then r.subjectType == objectType && r.subjectId == objectId
    else r.objectType == objectType && r.objectId == objectId
  }

  // ---- Keys identify relations ----

  lemma JoinKeyInjective(
      t1: string, i1: string, rel: string, t2: string, tail: string,
      t1': string, i1': string, rel': string, t2': string, tail': string)
    requires NameOk(t1) && IdOk(i1) && NameOk(rel) && NameOk(t2)
    requires NameOk(t1') && IdOk(i1') && NameOk(rel') && NameOk(t2')
    ensures JoinKey(t1, i1, rel, t2, tail) == JoinKey(t1', i1', rel', t2', tail')
            <==> t1 == t1' && i1 == i1' && rel == rel' && t2 == t2' && tail == tail'
  {
    var d, d' := t2 + [TYPE_ID_SEPARATOR] + tail, t2' + [TYPE_ID_SEPARATOR] + tail';
    var c, c' := rel + [INSTANCE_SEPARATOR] + d, rel' + [INSTANCE_SEPARATOR] + d';
    var b, b' := i1 + [INSTANCE_SEPARATOR] + c, i1' + [INSTANCE_SEPARATOR] + c';
    JoinKeyNested(t1, i1, rel, t2, tail);
    JoinKeyNested(t1', i1', rel', t2', tail');
    if JoinKey(t1, i1, rel, t2, tail) == JoinKey(t1', i1', rel', t2', tail') {
      SplitUnique(t1, b, t1', b', TYPE_ID_SEPARATOR);
      SplitUnique(i1, c, i1', c', INSTANCE_SEPARATOR);
      SplitUnique(rel, d, rel', d', INSTANCE_SEPARATOR);
      SplitUnique(t2, tail, t2', tail', TYPE_ID_SEPARATOR);
    }
  }

  /** The optional suffix can be told from the id as long as neither id holds the separator. */
  lemma TailInjective(i: string, sr: string, i': string, sr': string)
    requires IdOk(i) && IdOk(i')
    ensures i + Suffix(sr) == i' + Suffix(sr') <==> i == i' && sr == sr'
  {
    if i + Suffix(sr) == i' + Suffix(sr') {
      var s := i + Suffix(sr);
      assert forall k :: 0 <= k < |i| ==> s[k] == i[k];
      assert forall k :: 0 <= k < |i'| ==> s[k] == i'[k];
      assert sr != "" ==> s[|i|] == INSTANCE_SEPARATOR;
      assert sr' != "" ==> s[|i'|] == INSTANCE_SEPARATOR;
      if sr != "" && sr' != "" {
        assert s == i + [INSTANCE_SEPARATOR] + sr == i' + [INSTANCE_SEPARATOR] + sr';
        SplitUnique(i, sr, i', sr', INSTANCE_SEPARATOR);
      }
    }
  }

  /** Both keys are injective on well-formed identifiers, subject relation included. */
  lemma KeyInjective(dir: Direction, r: RelationId, s: RelationId)
    requires WellFormed(r) && WellFormed(s)
    ensures KeyOf(dir, r) == KeyOf(dir, s) <==> r == s
  {
    if dir == BySubject {
      JoinKeyInjective(r.subjectType, r.subjectId, r.relation, r.objectType, r.objectId + Suffix(r.subjectRelation),
                       s.subjectType, s.subjectId, s.relation, s.objectType, s.objectId + Suffix(s.subjectRelation));
      TailInjective(r.objectId, r.subjectRelation, s.objectId, s.subjectRelation);
    } else {
      JoinKeyInjective(r.objectType, r.objectId, r.relation, r.subjectType, r.subjectId + Suffix(r.subjectRelation),
                       s.objectType, s.objectId, s.relation, s.subjectType, s.subjectId + Suffix(s.subjectRelation));
      TailInjective(r.subjectId, r.subjectRelation, s.subjectId, s.subjectRelation);
    }
  }

  /**
   With the subject id unrestricted, object keys collide exactly when the two relations agree up to
   the subject type and one of them hides a subject relation in its subject id.
   */
  lemma ObjKeyCollidesIff(r: RelationId, s: RelationId)
    requires FrameOk(r) && FrameOk(s)
    ensures ObjKey(r) == ObjKey(s) <==>
            && r.objectType == s.objectType && r.objectId == s.objectId
            && r.relation == s.relation && r.subjectType == s.subjectType
            && r.subjectId + Suffix(r.subjectRelation) == s.subjectId + Suffix(s.subjectRelation)
    ensures ObjKey(r) == ObjKey(s) && r != s ==> !IdOk(r.subjectId) || !IdOk(s.subjectId)
  {
    JoinKeyInjective(r.objectType, r.objectId, r.relation, r.subjectType, r.subjectId + Suffix(r.subjectRelation),
                     s.objectType, s.objectId, s.relation, s.subjectType, s.subjectId + Suffix(s.subjectRelation));
    if IdOk(r.subjectId) && IdOk(s.subjectId) {
      TailInjective(r.subjectId, r.subjectRelation, s.subjectId, s.subjectRelation);
    }
  }

  /** Where the object keys collide, the subject keys do so only if the relation is named like the object's key. */
  lemma CollisionSubKeys(r: RelationId, sid: string, srel: string)
    requires NameOk(r.objectType) && IdOk(r.objectId) && IdOk(r.relation) && NameOk(r.subjectType)
    requires IdOk(sid) && IdOk(srel) && srel != ""
    requires SubKey(r.(subjectId := sid, subjectRelation := srel))
             == SubKey(r.(subjectId := sid + [INSTANCE_SEPARATOR] + srel, subjectRelation := ""))
    ensures ObjectKey(r.objectType, r.objectId) == r.relation
  {
    var bar := [INSTANCE_SEPARATOR];
    var d := r.objectType + [TYPE_ID_SEPARATOR] + (r.objectId + Suffix(srel));
    var d' := r.objectType + [TYPE_ID_SEPARATOR] + (r.objectId + Suffix(""));
    var c, c' := r.relation + bar + d, r.relation + bar + d';
    var e' := srel + bar + c';
    JoinKeyNested(r.subjectType, sid, r.relation, r.objectType, r.objectId + Suffix(srel));
    JoinKeyNested(r.subjectType, sid + bar + srel, r.relation, r.objectType, r.objectId + Suffix(""));
    assert sid + bar + srel + bar + c' == sid + bar + e';
    SplitUnique(r.subjectType, sid + bar + c, r.subjectType, sid + bar + e', TYPE_ID_SEPARATOR);
    SplitUnique(sid, c, sid, e', INSTANCE_SEPARATOR);
    SplitUnique(r.relation, d, srel, c', INSTANCE_SEPARATOR);
    assert d == ObjectKey(r.objectType, r.objectId) + bar + srel;
    SplitUnique(ObjectKey(r.objectType, r.objectId), srel, r.relation, d', INSTANCE_SEPARATOR);
  }

  /**
   A separator in a subject id makes two different relations share an object key, while their
   subject keys still differ: the two indexes no longer agree.
   */
  lemma SeparatorCollision(r: RelationId, sid: string, srel: string)
    requires FrameOk(r) && IdOk(sid) && NameOk(srel) && srel != ""
    ensures var a := r.(subjectId := sid, subjectRelation := srel);
            var b := r.(subjectId := sid + [INSTANCE_SEPARATOR] + srel, subjectRelation := "");
            a != b && ObjKey(a) == ObjKey(b) && SubKey(a) != SubKey(b)
  {
    assert sid + Suffix(srel) == sid + [INSTANCE_SEPARATOR] + srel + Suffix("");
    assert ObjectKey(r.objectType, r.objectId)[|r.objectType|] == TYPE_ID_SEPARATOR;
    if SubKey(r.(subjectId := sid, subjectRelation := srel))
       == SubKey(r.(subjectId := sid + [INSTANCE_SEPARATOR] + srel, subjectRelation := "")) {
      CollisionSubKeys(r, sid, srel);
    }
  }

  // ---- Prefixes select what they should ----

  /** The prefix of a filter never excludes a relation the value filter accepts. */
  lemma PrefixAdmits(dir: Direction, f: RelationFilter, r: RelationId)
    requires Accepts(f, r)
    ensures FilterPrefix(dir, f) <= KeyOf(dir, r)
  {
    if dir == BySubject {
      JoinFilterAdmits(f.subjectType, f.subjectId, f.relation, f.objectType, f.objectId,
                       r.subjectType, r.subjectId, r.relation, r.objectType, r.objectId, Suffix(r.subjectRelation));
    } else {
      JoinFilterAdmits(f.objectType, f.objectId, f.relation, f.subjectType, f.subjectId,
                       r.objectType, r.objectId, r.relation, r.subjectType, r.subjectId, Suffix(r.subjectRelation));
    }
  }

  lemma JoinFilterAdmits(
      f1: string, f2: string, f3: string, f4: string, f5: string,
      t1: string, i1: string, rel: string, t2: string, i2: string, suffix: string)
    requires (f1 != "" ==> f1 == t1) && (f2 != "" ==> f2 == i1) && (f3 != "" ==> f3 == rel)
    requires (f4 != "" ==> f4 == t2) && (f5 != "" ==> f5 == i2)
    ensures JoinFilter(f1, f2, f3, f4, f5) <= JoinKey(t1, i1, rel, t2, i2 + suffix)
  {
    var c, i := [TYPE_ID_SEPARATOR], [INSTANCE_SEPARATOR];
    var key := JoinKey(t1, i1, rel, t2, i2 + suffix);
    if IsSet(f1) && IsSet(f2) {
      if !IsSet(f3) {
        assert key == JoinFilter(f1, f2, f3, f4, f5) + (rel + i + (t2 + c + (i2 + suffix)));
      } else if !IsSet(f4) {
        assert key == JoinFilter(f1, f2, f3, f4, f5) + (t2 + c + (i2 + suffix));
      } else if !IsSet(f5) {
        assert key == JoinFilter(f1, f2, f3, f4, f5) + (i2 + suffix);
      } else {
        assert key == JoinFilter(f1, f2, f3, f4, f5) + suffix;
      }
    }
  }

  /** The prefix `type:id|` selects exactly the relations that name that object on that side. */
  lemma ObjectPrefixExact(dir: Direction, objectType: string, objectId: string, r: RelationId)
    requires WellFormed(r) && NameOk(objectType) && IdOk(objectId)
    requires IsSet(objectType) && IsSet(objectId)
    ensures FilterPrefix(dir, ObjectOnlyFilter(dir, objectType, objectId)) <= KeyOf(dir, r)
            <==> Names(dir, r, objectType, objectId)
  {
    if dir == BySubject {
      JoinPrefixExact(objectType, objectId, r.subjectType, r.subjectId, r.relation, r.objectType,
                      r.objectId + Suffix(r.subjectRelation));
    } else {
      JoinPrefixExact(objectType, objectId, r.objectType, r.objectId, r.relation, r.subjectType,
                      r.subjectId + Suffix(r.subjectRelation));
    }
  }

  lemma JoinPrefixExact(t: string, i: string, t1: string, i1: string, rel: string, t2: string, tail: string)
    requires NameOk(t) && IdOk(i) && IsSet(t) && IsSet(i) && NameOk(t1) && IdOk(i1)
    ensures JoinFilter(t, i, "", "", "") <= JoinKey(t1, i1, rel, t2, tail) <==> t == t1 && i == i1
  {
    JoinKeyNested(t1, i1, rel, t2, tail);
    var rest := rel + [INSTANCE_SEPARATOR] + (t2 + [TYPE_ID_SEPARATOR] + tail);
    assert JoinFilter(t, i, "", "", "") == t + [TYPE_ID_SEPARATOR] + (i + [INSTANCE_SEPARATOR] + "");
    SplitPrefix(t, i + [INSTANCE_SEPARATOR] + "", t1, i1 + [INSTANCE_SEPARATOR] + rest, TYPE_ID_SEPARATOR);
    SplitPrefix(i, "", i1, rest, INSTANCE_SEPARATOR);
  }

  /** The prefix `type:` selects exactly the objects of that type. */
  lemma TypePrefixExact(objectType: string, t: string, id: string)
    requires NameOk(objectType) && NameOk(t)
    ensures ObjectKey(objectType, "") <= ObjectKey(t, id) <==> objectType == t
  {
    SplitPrefix(objectType, "", t, id, TYPE_ID_SEPARATOR);
  }

  lemma ObjectKeyInjective(t: string, id: string, t': string, id': string)
    requires NameOk(t) && NameOk(t')
    ensures ObjectKey(t, id) == ObjectKey(t', id') <==> t == t' && id == id'
  {
    if ObjectKey(t, id) == ObjectKey(t', id') {
      SplitUnique(t, id, t', id', TYPE_ID_SEPARATOR);
    }
  }
}

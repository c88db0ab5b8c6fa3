/**
 The directory's writes on a BoltDB transaction: single relations and objects, conditional writes,
 and deleting an object together with its relations
 (internal/eds/pkg/bdb, internal/eds/pkg/directory/v3/writer.go, internal/eds/pkg/directory/v3/relations.go).
 */
module Directory {
  import opened Wrappers
  import opened Watermark
  import opened Text
  import opened Rows
  import opened Relations
  import opened Scanner
  import opened Versioned
  import opened RelationStore

  datatype ObjectBody = ObjectBody(objectType: string, objectId: string, properties: string)

  type Object = Record<ObjectBody>

  datatype Error = HashMismatch

  /** What the client is told of a set request. */
  function Reply<T>(outcome: Outcome<T>): Result<Record<T>, Error> {
    match outcome
    case Mismatch => Err(HashMismatch)
    case Same(reply) => Ok(reply)
    case Written(record) => Ok(record)
  }

  /** The rows a scan of one object's relations finds, whatever type and id it is asked for. */
  ghost predicate Hit(dir: Direction, objectType: string, objectId: string, r: RelationId) {
    FilterPrefix(dir, ObjectOnlyFilter(dir, objectType, objectId)) <= KeyOf(dir, r)
  }

  /** The table without those rows. */
  ghost function Without(table: Table, dir: Direction, objectType: string, objectId: string): Table {
    map r | r in table && !Hit(dir, objectType, objectId, r) :: table[r]
  }

  /** What `deleteRelationsWithPrefix`, run for the subject side and then the object side, leaves. */
  ghost function Cascade(table: Table, objectType: string, objectId: string): Table {
    Without(Without(table, BySubject, objectType, objectId), ByObject, objectType, objectId)
  }

  /** What deleting the object's relations is meant to leave. */
  ghost function Unrelated(table: Table, objectType: string, objectId: string): Table {
    map r | r in table && !Names(BySubject, r, objectType, objectId) && !Names(ByObject, r, objectType, objectId) :: table[r]
  }

  ghost predicate TableOk(table: Table) {
    forall r :: r in table ==> WellFormed(r) && table[r].body == r
  }

  /** A type or id of nothing but white space leaves the scan without a prefix, and it hits everything. */
  lemma HitExact(dir: Direction, objectType: string, objectId: string, r: RelationId)
    requires WellFormed(r) && NameOk(objectType) && IdOk(objectId)
    ensures Hit(dir, objectType, objectId, r)
            <==> Names(dir, r, objectType, objectId) || !IsSet(objectType) || !IsSet(objectId)
  {
    if IsSet(objectType) && IsSet(objectId) {
      ObjectPrefixExact(dir, objectType, objectId, r);
    } else {
      assert FilterPrefix(dir, ObjectOnlyFilter(dir, objectType, objectId)) == "";
    }
  }

  /**
   Deleting an object with its relations removes exactly the relations that name it, on either side
   and with any subject relation, if and only if its type and id are set, or nothing else is stored.
   */
  lemma CascadeExactIff(table: Table, objectType: string, objectId: string)
    requires TableOk(table) && NameOk(objectType) && IdOk(objectId)
    ensures Cascade(table, objectType, objectId) == Unrelated(table, objectType, objectId)
            <==> (IsSet(objectType) && IsSet(objectId)) || Unrelated(table, objectType, objectId) == map[]
  {
    forall r | r in table
      ensures r in Cascade(table, objectType, objectId)
              <==> IsSet(objectType) && IsSet(objectId) && r in Unrelated(table, objectType, objectId)
    {
      HitExact(BySubject, objectType, objectId, r);
      HitExact(ByObject, objectType, objectId, r);
    }
    var left, want := Cascade(table, objectType, objectId), Unrelated(table, objectType, objectId);
    if IsSet(objectType) && IsSet(objectId) {
      assert left.Keys == want.Keys;
    } else {
      assert left == map[];
    }
  }

  /** A blank type or id, whatever is stored: nothing is left, also of what does not name the object. */
  lemma BlankCascade(table: Table, objectType: string, objectId: string)
    requires TableOk(table) && NameOk(objectType) && IdOk(objectId)
    requires !IsSet(objectType) || !IsSet(objectId)
    ensures Cascade(table, objectType, objectId) == map[]
  {
    forall r | r in table ensures Hit(BySubject, objectType, objectId, r) {
      HitExact(BySubject, objectType, objectId, r);
    }
  }

  /** One such table: deleting the object ` :1` takes an unrelated relation along. */
  lemma BlankCascadeWitness()
    ensures var rel := Record(RelationId("d", "1", "o", "u", "b", ""), "", ZERO, ZERO);
            var table := map[rel.body := rel];
            Cascade(table, " ", "1") == map[] && Unrelated(table, " ", "1") == table
  {
    var rel := Record(RelationId("d", "1", "o", "u", "b", ""), "", ZERO, ZERO);
    BlankCascade(map[rel.body := rel], " ", "1");
  }

  lemma ScannedSound(dir: Direction, index: map<string, Relation>, table: Table, prefix: string, i: nat)
    requires IsIndex(dir, index, table) && i < |ScanRows(index, prefix, prefix)|
    ensures var rel := ScanRows(index, prefix, prefix)[i].value;
            rel.body in table && table[rel.body] == rel && prefix <= KeyOf(dir, rel.body)
  {
    ScanRowsExact(index, prefix, prefix);
    var r := ScanRows(index, prefix, prefix)[i];
    assert r.key in index && r.value == index[r.key] && InRange(r.key, prefix, prefix);
  }

  lemma ScannedComplete(dir: Direction, index: map<string, Relation>, table: Table, prefix: string, id: RelationId)
    requires IsIndex(dir, index, table) && id in table && prefix <= KeyOf(dir, id)
    ensures table[id] in Values(ScanRows(index, prefix, prefix))
  {
    var rows, key := ScanRows(index, prefix, prefix), KeyOf(dir, id);
    PrefixInRange(key, prefix);
    ScanRowsCover(index, prefix, prefix, key);
    var i :| 0 <= i < |rows| && rows[i].key == key;
    assert rows[i].value == index[key] by { ScanRowsExact(index, prefix, prefix); }
    assert Values(rows)[i] == table[id];
  }

  /** The rows a prefix scan of an index yields, as relations. */
  lemma ScannedExact(dir: Direction, index: map<string, Relation>, table: Table, prefix: string, rel: Relation)
    requires IsIndex(dir, index, table)
    ensures rel in Values(ScanRows(index, prefix, prefix))
            <==> rel.body in table && table[rel.body] == rel && prefix <= KeyOf(dir, rel.body)
  {
    var values := Values(ScanRows(index, prefix, prefix));
    if rel in values {
      var i :| 0 <= i < |values| && values[i] == rel;
      ScannedSound(dir, index, table, prefix, i);
    }
    if rel.body in table && table[rel.body] == rel && prefix <= KeyOf(dir, rel.body) {
      ScannedComplete(dir, index, table, prefix, rel.body);
    }
  }

  /** The table after the first `n` of some relations have been deleted. */
  ghost function Minus(table: Table, rels: seq<Relation>, n: nat): Table
    requires n <= |rels|
  {
    if n == 0 then table else Minus(table, rels, n - 1) - {rels[n - 1].body}
  }

  lemma {:induction false} MinusKeeps(table: Table, rels: seq<Relation>, n: nat, r: RelationId)
    requires n <= |rels|
    ensures r in Minus(table, rels, n) <==> r in table && forall i :: 0 <= i < n ==> rels[i].body != r
    ensures r in Minus(table, rels, n) ==> Minus(table, rels, n)[r] == table[r]
    decreases n
  {
    if n > 0 {
      MinusKeeps(table, rels, n - 1, r);
    }
  }

  ghost predicate AreHits(table: Table, dir: Direction, objectType: string, objectId: string, rels: seq<Relation>) {
    forall rel: Relation :: rel in rels <==>
      rel.body in table && table[rel.body] == rel && Hit(dir, objectType, objectId, rel.body)
  }

  lemma MinusHits(table: Table, dir: Direction, objectType: string, objectId: string, rels: seq<Relation>, r: RelationId)
    requires TableOk(table) && AreHits(table, dir, objectType, objectId, rels)
    ensures r in Minus(table, rels, |rels|) <==> r in table && !Hit(dir, objectType, objectId, r)
  {
    MinusKeeps(table, rels, |rels|, r);
    if r in table && Hit(dir, objectType, objectId, r) {
      assert table[r].body == r && table[r] in rels;
    }
    assert forall i :: 0 <= i < |rels| ==> rels[i] in rels;
  }

  /** Deleting the scanned relations one by one leaves the table without what the scan hits. */
  lemma MinusAll(table: Table, dir: Direction, objectType: string, objectId: string, rels: seq<Relation>)
    requires TableOk(table) && AreHits(table, dir, objectType, objectId, rels)
    ensures Minus(table, rels, |rels|) == Without(table, dir, objectType, objectId)
  {
    var left, want := Minus(table, rels, |rels|), Without(table, dir, objectType, objectId);
    forall r ensures r in left <==> r in want {
      MinusHits(table, dir, objectType, objectId, rels, r);
    }
    forall r | r in left ensures left[r] == want[r] {
      MinusKeeps(table, rels, |rels|, r);
    }
  }

  /** A scan under the prefix `type:` yields exactly the objects of that type. */
  lemma ObjectsOfType(objects: map<string, Object>, objectType: string, k: string)
    requires NameOk(objectType) && k in objects
    requires NameOk(objects[k].body.objectType) && k == ObjectKey(objects[k].body.objectType, objects[k].body.objectId)
    ensures var prefix := ObjectKey(objectType, "");
            HasKey(ScanRows(objects, prefix, prefix), k) <==> objects[k].body.objectType == objectType
  {
    var prefix := ObjectKey(objectType, "");
    var rows := ScanRows(objects, prefix, prefix);
    TypePrefixExact(objectType, objects[k].body.objectType, objects[k].body.objectId);
    if prefix <= k {
      PrefixInRange(k, prefix);
      ScanRowsCover(objects, prefix, prefix, k);
    }
    if HasKey(rows, k) {
      var i :| 0 <= i < |rows| && rows[i].key == k;
      ScanRowsSound(objects, prefix, prefix, i);
    }
  }

  /** Setting a row with its hash as etag keeps indexes, table and etags in step. */
  lemma PutKeeps(ix: Indexes, table: Table, rel: Relation, hash: RelationId -> string)
    requires Represents(ix, table) && EtagsOk(table, hash) && WellFormed(rel.body) && rel.etag == hash(rel.body)
    ensures Represents(BoltApply(ix, Put(rel)), table[rel.body := rel]) && EtagsOk(table[rel.body := rel], hash)
  {
    ApplyKeepsRepresents(ix, table, Put(rel));
  }

  /** One BoltDB transaction over the directory's buckets. */
  class Tx {
    const objectHash: ObjectBody -> string
    const relationHash: RelationId -> string
    var objects: map<string, Object>
    var relationsObj: map<string, Relation>
    var relationsSub: map<string, Relation>
    ghost var table: Table

    ghost predicate Valid() reads this {
      && Represents(Indexes(relationsObj, relationsSub), table)
      && EtagsOk(objects, objectHash) && EtagsOk(table, relationHash)
      && (forall k :: k in objects ==> k == ObjectKey(objects[k].body.objectType, objects[k].body.objectId))
    }

    constructor (objectHash: ObjectBody -> string, relationHash: RelationId -> string)
      ensures Valid() && objects == map[] && table == map[]
      ensures this.objectHash == objectHash && this.relationHash == relationHash
    {
      this.objectHash, this.relationHash := objectHash, relationHash;
      objects, relationsObj, relationsSub, table := map[], map[], map[], map[];
    }

    method GetRelationExact(id: RelationId) returns (rel: Option<Relation>)
      requires Valid() && WellFormed(id)
      ensures rel == Versioned.Lookup(table, id)
    {
      var key := ObjKeyOf(id);
      rel := Versioned.Lookup(relationsObj, key);
      if key in relationsObj {
        KeyInjective(ByObject, relationsObj[key].body, id);
      }
    }

    /** `SetRelation` of the transaction: the record goes under both keys. */
    method PutRelation(rel: Relation)
      requires Valid() && WellFormed(rel.body) && rel.etag == relationHash(rel.body)
      modifies this
      ensures Valid() && objects == old(objects)
      ensures table == old(table)[rel.body := rel]
      ensures Indexes(relationsObj, relationsSub) == BoltApply(old(Indexes(relationsObj, relationsSub)), Put(rel))
    {
      ghost var ix, rows := Indexes(relationsObj, relationsSub), table;
      var objKey := ObjKeyOf(rel.body);
      relationsObj := relationsObj[objKey := rel];
      var subKey := SubKeyOf(rel.body);
      relationsSub := relationsSub[subKey := rel];
      table := table[rel.body := rel];
      assert Represents(Indexes(relationsObj, relationsSub), table) && EtagsOk(table, relationHash) by {
        PutKeeps(ix, rows, rel, relationHash);
      }
    }

    /** `DeleteRelation` of the transaction; deleting an absent key is no error. */
    method RemoveRelation(id: RelationId)
      requires Valid() && WellFormed(id)
      modifies this
      ensures Valid() && objects == old(objects)
      ensures table == old(table) - {id}
      ensures Indexes(relationsObj, relationsSub) == BoltApply(old(Indexes(relationsObj, relationsSub)), Remove(id))
    {
      ghost var ix := Indexes(relationsObj, relationsSub);
      var objKey := ObjKeyOf(id);
      relationsObj := relationsObj - {objKey};
      var subKey := SubKeyOf(id);
      relationsSub := relationsSub - {subKey};
      table := table - {id};
      assert Represents(BoltApply(ix, Remove(id)), table) by {
        ApplyKeepsRepresents(ix, old(table), Remove(id));
      }
    }

    /** `DeleteManifest` wipes the data buckets. */
    method DeleteManifest()
      modifies this
      ensures Valid() && objects == map[] && table == map[] && relationsObj == map[] && relationsSub == map[]
    {
      objects, relationsObj, relationsSub, table := map[], map[], map[], map[];
    }

    /** `relationsByObject` */
    method RelationsByObject(dir: Direction, objectType: string, objectId: string) returns (rels: seq<Relation>)
      requires Valid()
      ensures AreHits(table, dir, objectType, objectId, rels)
    {
      var index := if dir == BySubject then relationsSub else relationsObj;
      var filter := ObjectOnlyFilter(dir, objectType, objectId);
      var prefix := FilterPrefix(dir, filter);
      var iter := new ScanIterator(index, "", prefix);
      rels := Drain(iter);
      forall rel: Relation
        ensures rel in rels <==>
          rel.body in table && table[rel.body] == rel && Hit(dir, objectType, objectId, rel.body)
      {
        ScannedExact(dir, index, table, prefix, rel);
      }
    }

    /** `deleteRelationsWithPrefix`: collect first, then delete. */
    method DeleteRelationsWithPrefix(dir: Direction, objectType: string, objectId: string)
      requires Valid()
      modifies this
      ensures Valid() && objects == old(objects)
      ensures table == Without(old(table), dir, objectType, objectId)
    {
      var rels := RelationsByObject(dir, objectType, objectId);
      MinusAll(table, dir, objectType, objectId, rels);
      for i := 0 to |rels|
        invariant Valid() && objects == old(objects)
        invariant table == Minus(old(table), rels, i)
      {
        assert rels[i] in rels;
        RemoveRelation(rels[i].body);
      }
    }

    /** `Writer.SetObject` */
    method SetObject(msg: Object, ifMatch: string, now: Timestamp) returns (r: Result<Object, Error>)
      requires Valid()
      modifies this
      ensures Valid() && table == old(table)
      ensures var key := ObjectKey(msg.body.objectType, msg.body.objectId);
              && objects == Apply(old(objects), Set(key, msg, ifMatch, now), objectHash)
              && (r.Ok? <==> GoesThrough(old(objects), Set(key, msg, ifMatch, now), objectHash))
              && r == Reply(SetOutcome(Versioned.Lookup(old(objects), key), msg, ifMatch, now, objectHash))
              && (r.Err? ==> objects == old(objects))
              && (r.Ok? && HashOk(objectHash) ==>
                    && key in objects && r.value.body == msg.body && r.value.etag == objects[key].etag
                    && (objects != old(objects) ==> r.value == objects[key]))
    {
      var key := ObjectKey(msg.body.objectType, msg.body.objectId);
      var cur := Versioned.Lookup(objects, key);
      var outcome := SetRecord(cur, msg, ifMatch, now, objectHash);
      match outcome
      case Mismatch =>
        r := Err(HashMismatch);
      case Same(reply) =>
        r := Ok(reply);
      case Written(record) =>
        objects := objects[key := record];
        r := Ok(record);
    }

    /** `Writer.SetRelation` */
    method SetRelation(msg: Relation, ifMatch: string, now: Timestamp) returns (r: Result<Relation, Error>)
      requires Valid() && WellFormed(msg.body)
      modifies this
      ensures Valid() && objects == old(objects)
      ensures table == Apply(old(table), Set(msg.body, msg, ifMatch, now), relationHash)
      ensures r.Ok? <==> GoesThrough(old(table), Set(msg.body, msg, ifMatch, now), relationHash)
      ensures r == Reply(SetOutcome(Versioned.Lookup(old(table), msg.body), msg, ifMatch, now, relationHash))
      ensures r.Err? ==> table == old(table)
      ensures r.Ok? && HashOk(relationHash) ==>
                && msg.body in table && r.value.body == msg.body && r.value.etag == table[msg.body].etag
                && (table != old(table) ==> r.value == table[msg.body])
    {
      var cur := GetRelationExact(msg.body);
      var outcome := SetRecord(cur, msg, ifMatch, now, relationHash);
      match outcome
      case Mismatch =>
        r := Err(HashMismatch);
      case Same(reply) =>
        r := Ok(reply);
      case Written(record) =>
        PutRelation(record);
        r := Ok(record);
    }

    /** `Writer.DeleteRelation` */
    method DeleteRelation(id: RelationId, ifMatch: string, now: Timestamp) returns (r: Result<(), Error>)
      requires Valid() && WellFormed(id)
      modifies this
      ensures Valid() && objects == old(objects)
      ensures table == Apply(old(table), Delete(id, ifMatch), relationHash)
      ensures r.Ok? <==> GoesThrough(old(table), Delete(id, ifMatch), relationHash)
      ensures r.Ok? ==> id !in table && ObjKey(id) !in relationsObj && SubKey(id) !in relationsSub
      ensures r.Err? ==> table == old(table)
    {
      if ifMatch != "" {
        var cur := GetRelationExact(id);
        var upd := UpdateMetadata(cur, Record(id, "", ZERO, ZERO), now);
        if ifMatch != upd.etag {
          return Err(HashMismatch);
        }
      }
      RemoveRelation(id);
      r := Ok(());
    }

    /** `Writer.DeleteObject`, with or without the object's relations. */
    method DeleteObject(objectType: string, objectId: string, ifMatch: string, withRelations: bool, now: Timestamp)
      returns (r: Result<(), Error>)
      requires Valid()
      modifies this
      ensures Valid()
      ensures var req := Delete(ObjectKey(objectType, objectId), ifMatch);
              && objects == Apply(old(objects), req, objectHash)
              && (r.Ok? <==> GoesThrough(old(objects), req, objectHash))
      ensures r.Ok? ==> ObjectKey(objectType, objectId) !in objects
      ensures r.Err? ==> objects == old(objects)
      ensures table == if r.Ok? && withRelations then Cascade(old(table), objectType, objectId) else old(table)
    {
      var key := ObjectKey(objectType, objectId);
      if ifMatch != "" {
        var cur := Versioned.Lookup(objects, key);
        var upd := UpdateMetadata(cur, Record(ObjectBody(objectType, objectId, ""), "", ZERO, ZERO), now);
        if ifMatch != upd.etag {
          return Err(HashMismatch);
        }
      }
      objects := objects - {key};
      if withRelations {
        DeleteRelationsWithPrefix(BySubject, objectType, objectId);
        DeleteRelationsWithPrefix(ByObject, objectType, objectId);
      }
      r := Ok(());
    }

    /** `ScanRelationsFiltered` */
    method ScanRelationsFiltered(dir: Direction, f: RelationFilter, out: seq<Relation>) returns (results: seq<Relation>)
      requires Valid()
      ensures |out| <= |results| && results[..|out|] == out
      ensures Answers(table, AcceptId(f), results[|out|..])
    {
      var buf := new Buffer();
      if dir == BySubject {
        WriteSubFilter(buf, f);
      } else {
        WriteObjFilter(buf, f);
      }
      var index := if dir == BySubject then relationsSub else relationsObj;
      assert buf.text == FilterPrefix(dir, f);
      results := ScanWithFilter(index, buf.text, AcceptRelation(f), out);
      BoltQueryExact(Indexes(relationsObj, relationsSub), table, dir, f);
      assert results[|out|..] == BoltQuery(Indexes(relationsObj, relationsSub), dir, f);
    }

    /** `RelationsExistForObject` */
    method RelationsExistForObject(dir: Direction, objectType: string, objectId: string) returns (found: bool)
      requires Valid()
      ensures found <==> exists r :: r in table && Hit(dir, objectType, objectId, r)
    {
      var index := if dir == BySubject then relationsSub else relationsObj;
      var prefix := FilterPrefix(dir, ObjectOnlyFilter(dir, objectType, objectId));
      found := KeyPrefixExists(index, prefix);
      if found {
        var k :| k in index && prefix <= k;
        assert index[k].body in table && Hit(dir, objectType, objectId, index[k].body);
      }
    }
  }
}

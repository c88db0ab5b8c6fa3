/**
 Stored records with an etag, and the conditional writes on them
 (internal/eds/pkg/directory/v3/writer.go, internal/eds/pkg/ds/metadata.go,
 internal/eds/pkg/directory/v3/importer.go, internal/eds/pkg/datasync/handlers.go).

 Objects and relations go through the same code twice over; `T` is what a record says apart from its
 bookkeeping, and the only thing its hash depends on.  The hash function is a parameter.
 */
module Versioned {
  import opened Wrappers
  import opened Watermark

  datatype Record<T> = Record(body: T, etag: string, createdAt: Timestamp, updatedAt: Timestamp)

  type Store<K, T> = map<K, Record<T>>

  function Lookup<K(==), T>(store: Store<K, T>, key: K): Option<Record<T>> {
    if key in store then Some(store[key]) else None
  }

  /** `UpdateMetadataObject` and `UpdateMetadataRelation`: stamp a message against the stored instance. */
  method UpdateMetadata<T>(cur: Option<Record<T>>, msg: Record<T>, now: Timestamp) returns (upd: Record<T>)
    ensures upd == Stamped(cur, msg, now)
  {
    upd := msg;
    if cur.None? {
      upd := upd.(createdAt := now);
      upd := upd.(etag := "");
    } else {
      upd := upd.(createdAt := cur.value.createdAt);
    }
    upd := upd.(updatedAt := now);
    if cur.Some? && cur.value.etag != "" {
      upd := upd.(etag := cur.value.etag);
    }
  }

  function Stamped<T>(cur: Option<Record<T>>, msg: Record<T>, now: Timestamp): Record<T> {
    if cur.None? then Record(msg.body, "", now, now)
    else Record(msg.body, if cur.value.etag != "" then cur.value.etag else msg.etag, cur.value.createdAt, now)
  }

  /** What a set request comes to. */
  datatype Outcome<T> =
    | Mismatch                     // the If-Match header does not name the stored version
    | Same(reply: Record<T>)       // nothing to write
    | Written(record: Record<T>)

  /** The body of `SetObject` and `SetRelation`; the importer and the sync handlers send no If-Match. */
  method SetRecord<T>(cur: Option<Record<T>>, msg: Record<T>, ifMatch: string, now: Timestamp, hash: T -> string)
    returns (outcome: Outcome<T>)
    ensures outcome == SetOutcome(cur, msg, ifMatch, now, hash)
  {
    var etag := hash(msg.body);
    var upd := UpdateMetadata(cur, msg, now);
    if ifMatch != "" && upd.etag != "" && ifMatch != upd.etag {
      return Mismatch;
    }
    if etag == upd.etag {
      return Same(upd);
    }
    upd := upd.(etag := etag);
    return Written(upd);
  }

  function SetOutcome<T>(cur: Option<Record<T>>, msg: Record<T>, ifMatch: string, now: Timestamp, hash: T -> string): Outcome<T> {
    var upd := Stamped(cur, msg, now);
    if ifMatch != "" && upd.etag != "" && ifMatch != upd.etag then Mismatch
    else if hash(msg.body) == upd.etag then Same(upd)
    else Written(upd.(etag := hash(msg.body)))
  }

  /** The check of `DeleteObject` and `DeleteRelation`. */
  predicate DeleteAllowed<T>(cur: Option<Record<T>>, ifMatch: string) {
    ifMatch == "" || (cur.Some? && cur.value.etag == ifMatch)
  }

  // ---- Runs of requests on the single-writer store ----

  datatype Request<K, T> =
    | Set(key: K, msg: Record<T>, ifMatch: string, now: Timestamp)
    | Delete(key: K, ifMatch: string)

  predicate GoesThrough<K(==), T>(store: Store<K, T>, req: Request<K, T>, hash: T -> string) {
    match req
    case Set(key, msg, ifMatch, now) => !SetOutcome(Lookup(store, key), msg, ifMatch, now, hash).Mismatch?
    case Delete(key, ifMatch) => DeleteAllowed(Lookup(store, key), ifMatch)
  }

  function Apply<K(==), T>(store: Store<K, T>, req: Request<K, T>, hash: T -> string): Store<K, T> {
    match req
    case Set(key, msg, ifMatch, now) =>
      var outcome := SetOutcome(Lookup(store, key), msg, ifMatch, now, hash);
      if outcome.Written? then store[key := outcome.record] else store
    case Delete(key, ifMatch) =>
      if DeleteAllowed(Lookup(store, key), ifMatch) then store - {key} else store
  }

  /** The store after the first `n` requests. */
  function StateAt<K(==), T>(init: Store<K, T>, reqs: seq<Request<K, T>>, hash: T -> string, n: nat): Store<K, T>
    requires n <= |reqs|
  {
    if n == 0 then init else Apply(StateAt(init, reqs, hash, n - 1), reqs[n - 1], hash)
  }

  /** A hash is never the empty string, which stands for no version at all. */
  ghost predicate HashOk<T(!new)>(hash: T -> string) {
    forall b :: hash(b) != ""
  }

  ghost predicate Injective<T(!new)>(hash: T -> string) {
    forall a, b :: hash(a) == hash(b) ==> a == b
  }

  ghost predicate EtagsOk<K, T>(store: Store<K, T>, hash: T -> string) {
    forall k :: k in store ==> store[k].etag == hash(store[k].body)
  }

  /** In every reachable state every stored etag is the hash of what is stored. */
  lemma {:induction false} EtagsAlwaysOk<K, T(!new)>(init: Store<K, T>, reqs: seq<Request<K, T>>, hash: T -> string, n: nat)
    requires n <= |reqs| && EtagsOk(init, hash)
    ensures EtagsOk(StateAt(init, reqs, hash, n), hash)
    decreases n
  {
    if n > 0 {
      EtagsAlwaysOk(init, reqs, hash, n - 1);
    }
  }

  /** A set request goes through exactly when it is unconditional, inserts, or names the stored version. */
  lemma SetAcceptedIff<K, T(!new)>(store: Store<K, T>, key: K, msg: Record<T>, ifMatch: string, now: Timestamp, hash: T -> string)
    requires HashOk(hash) && EtagsOk(store, hash)
    ensures GoesThrough(store, Set(key, msg, ifMatch, now), hash)
            <==> ifMatch == "" || key !in store || ifMatch == hash(store[key].body)
    ensures GoesThrough(store, Set(key, msg, ifMatch, now), hash) && Injective(hash) ==>
            var store' := Apply(store, Set(key, msg, ifMatch, now), hash);
            key in store' && store'[key].body == msg.body && store'[key].etag == hash(msg.body)
  {
  }

  /** A delete request goes through exactly when it is unconditional or names the stored version. */
  lemma DeleteAcceptedIff<K, T(!new)>(store: Store<K, T>, key: K, ifMatch: string, hash: T -> string)
    requires EtagsOk(store, hash)
    ensures GoesThrough(store, Delete(key, ifMatch), hash)
            <==> ifMatch == "" || (key in store && ifMatch == hash(store[key].body))
  {
  }

  /** A request that goes through does what it says, and one that does not changes nothing. */
  lemma DeleteDeletes<K, T>(store: Store<K, T>, key: K, ifMatch: string, hash: T -> string)
    requires GoesThrough(store, Delete(key, ifMatch), hash)
    ensures key !in Apply(store, Delete(key, ifMatch), hash)
  {
  }

  lemma RefusedUnchanged<K, T>(store: Store<K, T>, req: Request<K, T>, hash: T -> string)
    requires !GoesThrough(store, req, hash)
    ensures Apply(store, req, hash) == store
  {
  }

  /**
   A set that goes through stamps what it changes: the update time is now, the creation time that of
   the stored record, or now for an insert.  One that brings the stored content changes nothing.
   */
  lemma SetStamps<K, T(!new)>(store: Store<K, T>, key: K, msg: Record<T>, ifMatch: string, now: Timestamp, hash: T -> string)
    requires HashOk(hash) && EtagsOk(store, hash) && GoesThrough(store, Set(key, msg, ifMatch, now), hash)
    ensures var store' := Apply(store, Set(key, msg, ifMatch, now), hash);
            if key in store && hash(store[key].body) == hash(msg.body) then store' == store
            else
              && key in store' && store'[key].updatedAt == now
              && store'[key].createdAt == if key in store then store[key].createdAt else now
  {
  }

  /**
   No lost update.  A client read a record in state `i` and later sends a write that names the
   version it read.  If the write goes through while the record is there, the record still says what the
   client read, however many requests came in between.
   */
  lemma NoLostUpdate<K, T(!new)>(
      init: Store<K, T>, reqs: seq<Request<K, T>>, hash: T -> string, key: K, i: nat, n: nat)
    requires HashOk(hash) && Injective(hash) && EtagsOk(init, hash)
    requires i <= n < |reqs| && reqs[n].key == key
    requires key in StateAt(init, reqs, hash, i) && key in StateAt(init, reqs, hash, n)
    requires reqs[n].ifMatch == StateAt(init, reqs, hash, i)[key].etag
    requires GoesThrough(StateAt(init, reqs, hash, n), reqs[n], hash)
    ensures StateAt(init, reqs, hash, n)[key].body == StateAt(init, reqs, hash, i)[key].body
  {
    EtagsAlwaysOk(init, reqs, hash, i);
    EtagsAlwaysOk(init, reqs, hash, n);
  }

  /** While a record stays in the store, its creation time stays what it was. */
  lemma {:induction false} CreatedAtStable<K, T(!new)>(
      init: Store<K, T>, reqs: seq<Request<K, T>>, hash: T -> string, key: K, i: nat, j: nat)
    requires i <= j <= |reqs|
    requires forall n :: i <= n <= j ==> key in StateAt(init, reqs, hash, n)
    ensures StateAt(init, reqs, hash, j)[key].createdAt == StateAt(init, reqs, hash, i)[key].createdAt
    decreases j
  {
    if i < j {
      CreatedAtStable(init, reqs, hash, key, i, j - 1);
      assert key in StateAt(init, reqs, hash, j - 1);
    }
  }

  /** A request only ever touches its own key. */
  lemma ApplyFrame<K, T>(store: Store<K, T>, req: Request<K, T>, hash: T -> string, k: K)
    requires k != req.key
    ensures Lookup(Apply(store, req, hash), k) == Lookup(store, k)
  {
  }
}

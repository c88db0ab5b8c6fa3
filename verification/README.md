# Eamerald: a verified model of the directory, its sync and its authorizer

Eamerald is a Go authorizer with a built-in directory of objects and relations. This project models
the parts of it whose correctness does not show in any single function, and proves what they promise.

**The relation store.** BoltDB keeps every relation twice, under an object key and under a subject
key, both strings joined with `:` and `|`. A query is a prefix seek on one of the two indexes followed
by a value filter. Postgres keeps rows and answers the same query with equality conditions. The model
takes the rows as the reference form (`Table`), proves that over every run of writes the two indexes
are a faithful image of it, and that every query, paged or not, comes out the same on both.

**Paging.** A page token is the key of the first row not looked at. The proofs are for any key order,
any page size and any writes between two requests, and are then used for both backends.

**Writes.** Conditional writes with If-Match, deleting an object with its relations, importing a
stream and importing it again.

**Directory sync.** A producer and a subscriber joined by a bounded channel, then a delete pass driven
by an approximate filter, then the watermark. It is a state machine whose steps may interleave in any
way and whose faults are steps too; the claims are about every run.

**Three smaller state machines.** Dependency-ordered start-up over rendezvous channels, the
prepared-query cache against compiler rotation, and the edge plugin's sync scheduler.

**Two computations.** Policy selection, and the statistics tree.

## What is assumed

- A Go string is a `string` of code points. For valid UTF-8, code-point order is byte order, and one
  string is a prefix of another in one reading exactly when it is in the other.
- Types and relation names hold neither `:` nor `|`, and ids hold no `|`. This is what the request
  validators, which are not part of the repository, are taken to enforce. Lemmas that need it say so
  (`WellFormed`), and what goes wrong without it is proved (`SeparatorCollision`,
  `ObjKeyCollidesIff`, `AlwaysAgreeIff`).
- For the names items go by in the sync filter, types and relation names hold none of `:`, `#` and
  `@` (`PlainNames`). Ids may hold anything; `FilterKeyInjective` alone asks that they hold no `#`.
- `Hash()` is a function of a record's content alone, never empty; where distinct contents must have
  distinct hashes the lemma asks for `Injective`.
- Of bbolt: an ordered map, a cursor over it, no empty keys, one writer at a time. Of Postgres: a
  SELECT returns the rows that meet its conditions, and columns are ordered by some strict total
  order. Of the sync filter: it answers for the keys it took in any way at all; where it must deny no
  key it took, the lemma asks for `NoFalseNegatives`.
- Local time is a parameter.

## What does not hold

Some properties one would expect are false of the code. Each is stated with its exact condition and a
failing input.

- Without the hypothesis on separators the two indexes can come apart. Over all runs of writes on a
  family of relations they hold the same values if and only if any two of the family collide under
  both keys or under neither (`AlwaysAgreeIff`, `SeparatorCollision`).
- Deleting an object with its relations on BoltDB removes exactly its relations if and only if its
  type and id are more than white space, or nothing else is stored; otherwise the prefix is empty and
  every relation goes (`CascadeExactIff`, `BlankCascadeWitness`).
- `GetRelation` on BoltDB has no value filter after its prefix scan. It replies what Postgres replies
  if and only if the filter accepts every stored relation under its prefix, or two or more match and
  both report that (`GetRelationAgreesIff`). With all fields set, what is wrongly found is a relation
  whose last id properly extends the one asked for, or one with another subject relation
  (`WronglyFoundIff`, `LongerIdFound`, `LongerIdWitness`).
- A page token a caller made up yields all of the range if and only if the seek lands on the prefix,
  or nothing is in range (`ScanExactIff`, `MadeUpTokenWitness`).
- A sync can hang: its subscriber's batch does not begin, and the producer waits for room in the
  channel for ever. This is possible if and only if the export has more messages of known kind than
  the channel holds, and it is the only way to hang (`HangsIff`, `GoesOnUnlessStuck`,
  `StuckReachable`).
- The code ignores whether the filter took a key. An exported item is deleted again exactly when the
  filter denies it (`ExportedLostIff`, `ExportedLost`).
- An item the export does not name may survive a delete-mode sync without the filter being wrong: an
  object whose id spells out a relation goes by the relation's name. Its name was put in the filter if
  and only if the export names an item confusable with it (`SurvivorInsertedIff`, `HashCollision`,
  `HashCollisionSurvives`).
- The watermark goes back if and only if writing its file breaks off after the file was truncated and
  it was past the zero time (`WatermarkLostIff`).
- Start-up completes if and only if the dependency map is acyclic and no address has two dependents,
  because each server signals once (`StartupCompletesIff`, `TwoDependentsHang`).
- A cached query can outlive its compiler. The code marks the runtime as watched before it registers
  the trigger, so there are two windows: a query being prepared at the rotation, and a query cached
  between the mark and the registration, with nothing in flight. A rotation can leave a stale entry if
  and only if the key is in one of them and the two compilers disagree on it; the package list
  likewise (`RotationStaleIff`, `RotationPackagesStaleIff`, `QueryStraddle`, `QueryGap`,
  `PackagesStraddle`, `PackagesGap`). Such an entry stays until the next rotation (`StaleStays`).
- The cache key does not tell an empty decision list from a list of one empty decision
  (`KeyEqualIff`).
- Importing a stream again writes nothing if and only if the stream never says two things about one
  key (`ReimportQuietIff`, `ContradictionRewrites`).
- The delete-mode sync due at a tick is not started when a task is running or other requests are
  pending (`TickDiffStartedIff`).

## Layout

All modules are in `src/`; `dafny verify dfyconfig.toml` takes them all.

| module | models |
|---|---|
| `Wrappers`, `Order`, `Text`, `Rows` | options and results, orders, strings in byte order, sorted row lists |
| `Scanner`, `Paging`, `Reader` | cursors and prefix scans, page tokens, the reader's paging loops and their client |
| `Relations`, `RelationStore`, `PagedRelations`, `SingleRelation` | keys and filters, the two backends, paged queries, `GetRelation` |
| `Versioned`, `Directory`, `Importer` | etags and conditional writes, the BoltDB transaction, imports |
| `Watermark`, `FilterKeys`, `Sync` | the watermark file and filter size, names in the filter, directory sync |
| `Startup`, `QueryCache`, `Scheduler` | the three smaller state machines |
| `Policy`, `Stats` | policy selection, the statistics tree |

## Model

| member | source | states |
|---|---|---|
| `Scanner.PrefixScanExact` | internal/eds/pkg/bdb/scanner.go:70-86 | Seeking to a start that carries the prefix and stopping at the first key without it visits exactly the keys at or above the start that carry the prefix, in any bucket |
| `Scanner.ScanExactIff` | internal/eds/pkg/bdb/scanner.go:52-86 | For an arbitrary start the visited keys are all keys in range if and only if the seek lands on the prefix or nothing is in range |
| `Scanner.MadeUpTokenMisses` | internal/eds/pkg/bdb/scanner.go:52-86 | A start below the prefix with a key without the prefix in between: a key in range is not visited |
| `Scanner.MadeUpTokenWitness` | internal/eds/pkg/bdb/scanner.go:52-86 | One such bucket and token |
| `Scanner.ScanRowsExact` | internal/eds/pkg/bdb/scanner.go:70-86 | A prefix scan yields exactly the bucket's entries in range, each once, with its value, in strictly increasing key order |
| `Scanner.ScanIterator.constructor` | internal/eds/pkg/bdb/scanner.go:52-68 | Without a page token the iterator starts at the key filter; what it will yield is the scan from there |
| `Scanner.ScanIterator.Next` | internal/eds/pkg/bdb/scanner.go:70-86 | True exactly while rows of the scan remain, and then it stands on the next one; the end of the scan does not move |
| `Scanner.Drain` | internal/eds/pkg/directory/v3/relations.go:47-50 | Reading an iterator to its end collects the values of exactly the rows it had left, in order |
| `Scanner.ScanWithFilter` | internal/eds/pkg/bdb/scanner.go:141-177 | Appends to the output the values of the prefix scan that the value filter accepts, in key order, and nothing else |
| `Scanner.KeyPrefixExists` | internal/eds/pkg/bdb/scanner.go:179-190 | True exactly when some key of the bucket carries the prefix |
| `Paging.PageLength` | internal/eds/pkg/store/iterator.go:16-35 | A page holds at most the asked-for number of rows, and exactly that number when it carries a token |
| `Paging.PageSound` | internal/eds/pkg/directory/v3/reader.go:254-277 | Rows of a page are stored entries the request asked for and the filter accepts, in key order, all below the token |
| `Paging.PageComplete` | internal/eds/pkg/directory/v3/reader.go:254-277 | No entry asked for and accepted that lies below the token is missing from the page |
| `Paging.TokenAdvances` | internal/eds/pkg/directory/v3/reader.go:254-277 | A token is the key of a stored entry strictly beyond the resume point, and its page is not empty |
| `Paging.PagesAscend` | internal/eds/pkg/directory/v3/reader.go:254-277 | Following tokens, keys come out strictly increasing whatever is written between requests, so nothing is handed out twice |
| `Paging.PagesSound` | internal/eds/pkg/directory/v3/reader.go:254-277 | Every row handed out was stored and accepted in the store state its page was cut from |
| `Paging.PagesComplete` | internal/eds/pkg/directory/v3/reader.go:254-277 | An entry present and accepted in every state a request saw is handed out by the time the last page has come |
| `Paging.PagesAreTheScan` | internal/eds/pkg/directory/v3/reader.go:254-277 | On an unchanged store the pages, for any page size, concatenate to the filtered scan |
| `Paging.PagesBounded` | daemon/authorizer/builtins/ds/relations.go:54-69 | On an unchanged store there are at most as many requests as entries at or beyond the start, plus one |
| `Relations.WriteObjKey` | internal/eds/pkg/bdb/relation_store.go:32-47 | Appends the object key, with the subject relation only when there is one |
| `Relations.WriteSubKey` | internal/eds/pkg/bdb/relation_store.go:49-64 | Appends the subject key, with the subject relation only when there is one |
| `Relations.ObjKeyOf` | internal/eds/pkg/bdb/relation_store.go:66-72 | The object key, from an empty buffer |
| `Relations.SubKeyOf` | internal/eds/pkg/bdb/relation_store.go:74-80 | The subject key, from an empty buffer |
| `Relations.WriteObjFilter` | internal/eds/pkg/bdb/relation_store.go:87-116 | Appends the longest gap-free prefix the filter's fields give in object order; a field of white space counts as unset |
| `Relations.WriteSubFilter` | internal/eds/pkg/bdb/relation_store.go:119-148 | The same in subject order |
| `Relations.KeyInjective` | internal/eds/pkg/bdb/relation_store.go:32-64 | Both keys tell any two well-formed identifiers apart, the optional subject relation included |
| `Relations.ObjKeyCollidesIff` | internal/eds/pkg/bdb/relation_store.go:32-47 | With the subject id unrestricted, object keys collide exactly when the relations agree up to the subject type and id and suffix read the same; differing relations then have a separator in a subject id |
| `Relations.SeparatorCollision` | internal/eds/pkg/bdb/relation_store.go:32-64 | For every subject id and subject relation there is a pair of relations with one object key and two subject keys |
| `Relations.PrefixAdmits` | internal/eds/pkg/bdb/relation_store.go:87-148 | The prefix of any filter, in either direction, is a prefix of the key of every relation the value filter accepts |
| `Relations.AcceptsByField` | internal/eds/pkg/ds/relation.go:144-172 | For every filter and relation each field makes its one demand whatever the other fields are: with the field cleared, the filter accepts that much more; the empty filter accepts everything |
| `Relations.ObjectPrefixExact` | internal/eds/pkg/bdb/relation_store.go:226-237 | The prefix of an object-only filter selects exactly the relations that name the object on that side |
| `Relations.TypePrefixExact` | internal/eds/pkg/bdb/object_store.go:22-39 | The prefix `type:` selects exactly the keys of that type's objects |
| `Relations.ObjectKeyInjective` | internal/eds/pkg/bdb/keys.go:10-17 | Object keys tell objects apart even when ids hold the separator |
| `RelationStore.ApplyKeepsRepresents` | internal/eds/pkg/bdb/relation_store.go:162-181 | A set, a delete or a manifest reset keeps both indexes a faithful image of the relation table |
| `RelationStore.RunsRepresent` | internal/eds/pkg/bdb/relation_store.go:162-181 | After every run of writes both indexes hold exactly the table's relations, each whole and under its own key |
| `RelationStore.RunLeaves` | internal/eds/pkg/bdb/relation_store.go:162-181 | After every run a relation is stored exactly when it was the last thing put for its identifier, with no delete of it and no reset since |
| `RelationStore.IndexesAgree` | internal/eds/pkg/bdb/relation_store.go:162-181 | After every run a relation is a value of one index exactly when it is one of the other, and then it sits under its own keys |
| `RelationStore.TwoWritesAgreeIff` | internal/eds/pkg/bdb/relation_store.go:162-173 | Two writes on an empty store leave the same values in both indexes exactly when their keys collide in both or in neither |
| `RelationStore.AlwaysAgreeIff` | internal/eds/pkg/bdb/relation_store.go:162-181 | Without any hypothesis on separators, for any family of relations: over every run of writes on it both indexes hold the same values, if and only if any two of its relations collide under both keys or under neither |
| `RelationStore.AddCondition` | internal/eds/pkg/pgdb/relation_store.go:45-77 | The extended WHERE clause holds of an identifier exactly when the old one and the added equality do |
| `RelationStore.RelationConditions` | internal/eds/pkg/pgdb/relation_store.go:45-77 | The WHERE clause of a filter holds of exactly the identifiers the value filter accepts, field by field as `AcceptsByField` says |
| `RelationStore.PostgresQuery` | internal/eds/pkg/pgdb/relation_store.go:196-245 | The result lists every stored relation the value filter accepts, once each |
| `RelationStore.BoltQueryExact` | internal/eds/pkg/bdb/relation_store.go:207-224 | For every filter and either direction, prefix scan plus value filter lists every stored relation the value filter accepts, once each |
| `RelationStore.AnswersAgree` | internal/eds/pkg/pgdb/relation_store.go:196-245 | Two complete answers to one query differ at most in order |
| `RelationStore.BackendsAgree` | internal/eds/pkg/bdb/relation_store.go:207-224 | After the same run of writes BoltDB and Postgres give every filter, in either direction, the same relations up to order |
| `Reader.FillPage` | internal/eds/pkg/directory/v3/reader.go:254-277 | The loop returns the accepted rows up to the cut and the key of the row after it, or no token at the end |
| `Reader.GetPage` | internal/eds/pkg/directory/v3/reader.go:234-293 | A request answers the page cut from the scan at its token; the token is empty exactly at the end |
| `Reader.AnswerIsPage` | internal/eds/pkg/directory/v3/reader.go:254-277 | A request with no token, or one that carries the prefix, answers the page of the entries at or beyond it |
| `Reader.TokenCarriesPrefix` | internal/eds/pkg/directory/v3/reader.go:262-270 | The tokens such a request hands out carry the prefix and are keys of the bucket |
| `Reader.BoltPagesAreTheScan` | internal/eds/pkg/directory/v3/reader.go:254-277 | On an unchanged bucket the pages concatenate to the filtered prefix scan, for any page size |
| `Reader.CollectPages` | daemon/authorizer/builtins/ds/relations.go:54-69 | The client's loop ends, and what it has collected is the filtered prefix scan |
| `PagedRelations.PagedRelationSound` | internal/eds/pkg/directory/v3/reader.go:234-293 | Every relation a paged query hands out was in the table, and accepted, when its page was cut |
| `PagedRelations.PagedRelationsDistinct` | internal/eds/pkg/directory/v3/reader.go:234-293 | Whatever is written between the requests, index keys strictly increase and no relation comes twice |
| `PagedRelations.PagedRelationsComplete` | internal/eds/pkg/directory/v3/reader.go:234-293 | A matching relation that stayed in the table throughout is handed out |
| `PagedRelations.RowOrderTotal` | internal/eds/pkg/pgdb/relation_store.go:27-41 | Comparing the six ordering columns in either direction is a strict total order on identifiers, for any collation |
| `PagedRelations.KeysetRelationSound` | internal/eds/pkg/pgdb/relation_store.go:160-179 | Every relation a keyset page hands out was in the table, and accepted, when its page was cut |
| `PagedRelations.KeysetRelationsDistinct` | internal/eds/pkg/pgdb/relation_store.go:160-179 | Whatever is written between the requests, rows strictly increase in the ordering columns and no relation comes twice |
| `PagedRelations.KeysetRelationsComplete` | internal/eds/pkg/pgdb/relation_store.go:160-179 | A matching relation that stayed in the table throughout is handed out |
| `PagedRelations.KeysetPagesAnswer` | internal/eds/pkg/pgdb/relation_store.go:160-179 | On an unchanged table the keyset pages together list every matching relation once |
| `PagedRelations.PagedBackendsAgree` | internal/eds/pkg/pgdb/relation_store.go:146-190 | Paged through with any two page sizes, the two backends hand out the same relations |
| `SingleRelation.GetRelation` | internal/eds/pkg/directory/v3/reader.go:172-231 | Not found, one result, or an error for several, according to what the prefix scan finds |
| `SingleRelation.GetRelationAgreesIff` | internal/eds/pkg/directory/v3/reader.go:192-213 | BoltDB's reply equals Postgres' if and only if the filter accepts every stored relation under its prefix, or two or more stored relations match |
| `SingleRelation.UnderPrefixIff` | internal/eds/pkg/bdb/relation_store.go:87-148 | Under the prefix of any filter whose leading type and id are set, in either direction and in fields: the leading two agree, and the following ones up to the first that is not set, the last id as a prefix |
| `SingleRelation.UnderFullPrefix` | internal/eds/pkg/bdb/relation_store.go:87-148 | With all fields set a relation is under the prefix exactly when it agrees in all fields before the last id and its last id starts with the one asked for |
| `SingleRelation.WronglyFoundIff` | internal/eds/pkg/directory/v3/reader.go:192-213 | Found and rejected, in fields: the last id properly extends the one asked for, or the subject relation differs |
| `SingleRelation.LongerIdFound` | internal/eds/pkg/directory/v3/reader.go:192-213 | On any store and in either direction: if the one relation under the prefix has a last id that goes on after the one asked for, BoltDB returns it where Postgres finds none |
| `SingleRelation.LongerIdWitness` | internal/eds/pkg/directory/v3/reader.go:192-213 | One such store and filter |
| `Versioned.UpdateMetadata` | internal/eds/pkg/ds/metadata.go:15-44 | An insert gets the current time twice and no etag; an update keeps the creation time and takes over the stored etag |
| `Versioned.SetRecord` | internal/eds/pkg/directory/v3/writer.go:50-83 | Mismatch, nothing to write, or the record to write with the new hash, as `SetOutcome` has it |
| `Versioned.EtagsAlwaysOk` | internal/eds/pkg/directory/v3/writer.go:50-83 | In every state of every run of requests, each stored etag is the hash of the stored content |
| `Versioned.SetAcceptedIff` | internal/eds/pkg/directory/v3/writer.go:52-72 | A set goes through exactly when it has no If-Match, inserts, or names the stored version; the record then says what was sent |
| `Versioned.DeleteAcceptedIff` | internal/eds/pkg/directory/v3/writer.go:217-246 | A delete goes through exactly when it has no If-Match or names the stored version |
| `Versioned.DeleteDeletes` | internal/eds/pkg/directory/v3/writer.go:234-243 | After a delete that goes through the key is gone |
| `Versioned.RefusedUnchanged` | internal/eds/pkg/directory/v3/writer.go:57-62 | A set or delete that is refused changes nothing |
| `Versioned.SetStamps` | internal/eds/pkg/ds/metadata.go:15-82 | A set that changes a record updates it now and keeps its creation time, or creates it now; one that brings the stored content changes nothing at all |
| `Versioned.NoLostUpdate` | internal/eds/pkg/directory/v3/writer.go:157-191 | If a write naming the version a client once read goes through, the record still says what the client read, whatever came in between |
| `Versioned.CreatedAtStable` | internal/eds/pkg/ds/metadata.go:15-82 | While a record stays stored its creation time does not change, over every run |
| `Versioned.ApplyFrame` | internal/eds/pkg/directory/v3/writer.go:37-86 | A request leaves every other key alone |
| `Directory.HitExact` | internal/eds/pkg/directory/v3/relations.go:40-53 | The scan for an object's relations hits those that name it, or all of them when type or id is white space |
| `Directory.CascadeExactIff` | internal/eds/pkg/directory/v3/writer.go:119-132 | The cascade leaves exactly the relations that do not name the object on either side, if and only if type and id are set or no such relation is stored |
| `Directory.BlankCascade` | internal/eds/pkg/directory/v3/writer.go:119-132 | With a blank type or id the cascade leaves no relation of any table |
| `Directory.BlankCascadeWitness` | internal/eds/pkg/directory/v3/writer.go:119-132 | A table whose only relation does not name the object and is deleted with it |
| `Directory.ScannedExact` | internal/eds/pkg/bdb/relation_store.go:183-205 | A prefix scan of an index yields exactly the stored relations whose key carries the prefix |
| `Directory.ObjectsOfType` | internal/eds/pkg/bdb/object_store.go:22-39 | A scan under `type:` yields an object exactly when it is of that type |
| `Directory.Tx.GetRelationExact` | internal/eds/pkg/bdb/relation_store.go:158-160 | The lookup by object key finds the relation with that identifier, or nothing |
| `Directory.Tx.PutRelation` | internal/eds/pkg/bdb/relation_store.go:162-173 | Writes the record under both keys; the transaction stays a faithful image of the table with that row set |
| `Directory.Tx.RemoveRelation` | internal/eds/pkg/bdb/relation_store.go:175-181 | Deletes both keys; the image is that of the table without the row |
| `Directory.Tx.DeleteManifest` | internal/eds/pkg/bdb/manifest_store.go:48-60 | Leaves no object and no relation in any bucket |
| `Directory.Tx.RelationsByObject` | internal/eds/pkg/directory/v3/relations.go:40-53 | Exactly the stored relations the object's prefix hits |
| `Directory.Tx.DeleteRelationsWithPrefix` | internal/eds/pkg/directory/v3/relations.go:16-36 | Leaves exactly the relations the prefix does not hit, objects untouched, both indexes still in step |
| `Directory.Tx.SetObject` | internal/eds/pkg/directory/v3/writer.go:37-86 | A conditional set on the object bucket: new state and refusal; an Ok reply is the record now stored if one was written, and otherwise carries the stored etag; relations untouched, etags stay hashes |
| `Directory.Tx.SetRelation` | internal/eds/pkg/directory/v3/writer.go:143-194 | A conditional set on the relation table, carried out on both indexes, with the same reply; refused, it changes nothing |
| `Directory.Tx.DeleteRelation` | internal/eds/pkg/directory/v3/writer.go:196-251 | A conditional delete on the relation table: when it goes through the relation is gone from the table and from both indexes, refused it changes nothing |
| `Directory.Tx.DeleteObject` | internal/eds/pkg/directory/v3/writer.go:88-140 | A conditional delete: when it goes through the object is gone and, if asked for, the relation table is the cascade's; refused, it changes nothing |
| `Directory.Tx.ScanRelationsFiltered` | internal/eds/pkg/bdb/relation_store.go:207-224 | What is appended to the output lists every stored relation the filter accepts, once each, in either direction |
| `Directory.Tx.RelationsExistForObject` | internal/eds/pkg/bdb/relation_store.go:226-237 | True exactly when a stored relation is hit by the object's prefix |
| `Importer.ImportStream` | internal/eds/pkg/directory/v3/importer.go:45-150 | The loop applies sets, deletes and deletes with relations one by one, and counts one error for each message a validator rejected |
| `Importer.ImportContent` | internal/eds/pkg/directory/v3/importer.go:153-312 | After an import each key says the stream's last valid word on it, deletes included, or what it said before; etags stay hashes |
| `Importer.DeleteTakes` | internal/eds/pkg/directory/v3/importer.go:190-244 | A valid delete leaves exactly the records other than its own item and the relations it takes along, as they were |
| `Importer.OthersKept` | internal/eds/pkg/directory/v3/importer.go:153-188 | A set touches no other record, and a rejected message none |
| `Importer.TakenIsGone` | internal/eds/pkg/directory/v3/importer.go:213-244 | An item or relation that a delete of the stream takes, and no later set names, is absent after the import |
| `Importer.SetIsKept` | internal/eds/pkg/directory/v3/importer.go:247-282 | What a message of the stream sets, and nothing later sets or deletes, is stored after the import |
| `Importer.ReplayAfterFailure` | internal/eds/pkg/directory/v3/importer.go:100-312 | Importing any prefix of a stream of sets and deletes and then all of it, at other times, gives the keys, contents and etags of one import |
| `Importer.ReimportQuietIff` | internal/eds/pkg/directory/v3/importer.go:168-187 | A second import of a stream writes nothing if and only if the stream never says two things about one key |
| `Importer.ContradictionRewrites` | internal/eds/pkg/directory/v3/importer.go:168-187 | On every store, a stream that sets one key to two contents writes when imported again |
| `Watermark.MaxTS` | internal/eds/pkg/datasync/watermark.go:64-72 | One of the two times, and not earlier than either |
| `Watermark.AtMostIsTime` | internal/eds/pkg/datasync/watermark.go:64-72 | Times are compared as nanoseconds since the epoch |
| `Watermark.FilterSize` | internal/eds/pkg/datasync/watermark.go:36-62 | A multiple of 1000, more than twice the last total, and at most the larger of 100000 and twice the total plus 1000 |
| `Watermark.WatermarkMonotone` | internal/eds/pkg/datasync/watermark.go:91-115 | Over any series of syncs the stored time never goes back and is not earlier than any time set since |
| `Watermark.FileExact` | internal/eds/pkg/datasync/watermark.go:74-130 | After any series of syncs the file holds the last one's counts, and the time it held before, zero for an unreadable file, or the time of one of the syncs |
| `Watermark.FilterHasRoom` | internal/eds/pkg/datasync/watermark.go:36-62 | The filter of the sync after another has room for more than twice what that one counted |
| `FilterKeys.FilterKeyEqualIff` | internal/eds/pkg/datasync/directory.go:333-341 | With plain type and relation names and any ids, two items go by one name if and only if they are the same, or one's id spells out what is relation or subject in the other, given field by field |
| `FilterKeys.FilterKeyInjective` | internal/eds/pkg/datasync/directory.go:333-341 | Without `#` in ids the names tell any two items apart, objects from relations included |
| `FilterKeys.HashCollision` | internal/eds/pkg/datasync/directory.go:333-341 | For every relation without subject relation there is an object that goes by its name |
| `Sync.DiffItems` | internal/eds/pkg/datasync/directory.go:262-331 | Deletes exactly the scanned items the filter denies and the delete handler accepts |
| `Sync.DiffPass` | internal/eds/pkg/datasync/directory.go:228-258 | Objects then relations: the store without every item the filter denies and the delete handler accepts |
| `Sync.InvStep` | internal/eds/pkg/datasync/directory.go:22-80 | Every step of producer, subscriber and main keeps the invariant: nothing lost or reordered on the channel, filter contents, phase order, target and watermark |
| `Sync.InvAlways` | internal/eds/pkg/datasync/directory.go:22-80 | The invariant holds in every state of every interleaving, faults included |
| `Sync.InterruptedExportHarmless` | internal/eds/pkg/datasync/directory.go:38-73 | In every run in which the producer fails, also in delete mode: no key leaves the target, what it gained is a prefix of the export, the watermark is unchanged, the sync does not finish |
| `Sync.InterruptedRunsToTheEnd` | internal/eds/pkg/datasync/directory.go:82-90 | After a producer failure a run that can only go on by a fault has returned an error, with the subscriber stopped and, if it committed, the channel drained |
| `Sync.DeletesOnlyAfterSuccess` | internal/eds/pkg/datasync/directory.go:57-67 | A key is missing from the target only in a delete-mode run whose producer and subscriber both succeeded, with the whole export handled |
| `Sync.RunsEnd` | internal/eds/pkg/datasync/directory.go:82-226 | No run has more than four steps per message, and five |
| `Sync.GoesOnUnlessStuck` | internal/eds/pkg/datasync/directory.go:82-226 | A run that is not over has a fault-free step, unless the producer holds a message for a full channel whose subscriber is gone; then it has none at all |
| `Sync.StuckOverruns` | internal/eds/pkg/datasync/directory.go:116-147 | A stuck run had an export with more messages of known kind than the channel holds |
| `Sync.StuckReachable` | internal/eds/pkg/datasync/directory.go:116-147 | Every such export, messages of unknown kind included, has a run that gets stuck |
| `Sync.HangsIff` | internal/eds/pkg/datasync/directory.go:22-80 | A sync can reach a state that is not the end and has no step if and only if the export has more messages of known kind than the channel holds |
| `Sync.FaultFreeFinishes` | internal/eds/pkg/datasync/directory.go:22-80 | A run without faults that cannot go on without one has finished, with every key in the filter |
| `Sync.CarryOn` | internal/eds/pkg/datasync/directory.go:22-80 | Every run in which nothing has failed can be carried on to a finished sync |
| `Sync.DiffSyncConverges` | internal/eds/pkg/datasync/directory.go:228-331 | After a finished delete-mode sync whose filter took every key: exported items hold the exported content, no named item was deleted, and any other item is there only if the filter claims it or its delete was refused, with its old content |
| `Sync.FaultFreeConverges` | internal/eds/pkg/datasync/directory.go:22-80 | If nothing fails, every exported item the handlers accept ends in the target with the exported content, and no item the export names is deleted |
| `Sync.SurvivorInsertedIff` | internal/eds/pkg/datasync/directory.go:116-140 | When every key was taken, an item's name is in the filter if and only if the export names the item or one confusable with it; any other survivor is a false positive |
| `Sync.HashCollisionSurvives` | internal/eds/pkg/datasync/directory.go:262-331 | An object whose id spells out an exported relation survives every such delete-mode sync, its name having been put in |
| `Sync.ExportedLostIff` | internal/eds/pkg/datasync/directory.go:262-331 | With any filter, an exported item the handlers accept is missing afterwards exactly when the filter denies it |
| `Sync.ExportedLost` | internal/eds/pkg/datasync/directory.go:116-140 | A run in which the filter refuses one key: the sync finishes and the exported item is gone |
| `Sync.FullSyncConverges` | internal/eds/pkg/datasync/directory.go:158-226 | After a finished sync without a delete pass the target is the old content overlaid with the exported |
| `Sync.WatermarkMoves` | internal/eds/pkg/datasync/directory.go:163-204 | The watermark changes only when a run finishes, then not back and past every item applied, or to zero in a run that fails at the file |
| `Sync.WatermarkExact` | internal/eds/pkg/datasync/directory.go:163-204 | The watermark of a finished run is the old one, zero if that is later, or the local time of a handling step of the run that applied a valid item; with no such item it is one of the first two |
| `Sync.WatermarkLostIff` | internal/eds/pkg/datasync/watermark.go:91-130 | Over every run the watermark ends up earlier than before if and only if writing the file broke off after truncating it, and it was past zero |
| `Startup.AddNeeds` | daemon/app/eamerald.go:64-75 | Adds exactly the edges one service's needs call for, no duplicates, no self-edges |
| `Startup.BuildDependencyMap` | daemon/app/eamerald.go:64-75 | An edge exactly for each need between two different addresses, each once, in whatever order the services come |
| `Startup.BuiltMapWellFormed` | daemon/app/eamerald.go:64-75 | The map built meets what the start-up proofs ask of it |
| `Startup.InvAlways` | daemon/service/builder/service_manager.go:138-175 | In every interleaving a server has heard from a dependency exactly when that one's single signal went to it, and the serving order respects the map |
| `Startup.ServesAfterDependencies` | daemon/service/builder/service_manager.go:138-175 | In every interleaving a server begins to serve only after each address it depends on |
| `Startup.NoWaiterStuck` | daemon/service/builder/service_manager.go:138-175 | If the map is acyclic and no address has two dependents, a state with a waiting server has a step |
| `Startup.RunsEnd` | daemon/service/builder/service_manager.go:138-175 | No run has more than two steps per server |
| `Startup.StartupCompletesIff` | daemon/service/builder/service_manager.go:138-175 | All servers can come to serve if and only if the map is acyclic with at most one dependent each; and then every run that stops has all serving |
| `Startup.TwoDependentsHang` | daemon/service/builder/service_manager.go:138-175 | An acyclic map of three servers, two of which depend on the third, cannot complete |
| `QueryCache.CacheKey` | daemon/authorizer/impl/prepared_query_cache.go:69-85 | The path and the decisions, joined with the two separators |
| `QueryCache.KeyEqualIff` | daemon/authorizer/impl/prepared_query_cache.go:69-85 | Separator-free requests share a key exactly when they are equal, or differ only as no decision and one empty decision |
| `QueryCache.HitsAreFresh` | daemon/authorizer/impl/prepared_query_cache.go:92-126 | In every run in which each rotation finds no query being prepared, no package list being read, and, while the trigger is not registered, nothing cached: each entry is what a fresh preparation gives, and the package list is current |
| `QueryCache.RotationStaleIff` | daemon/authorizer/impl/prepared_query_cache.go:92-126 | From any current state, a run that rotates once, first, can reach a stale entry for a key if and only if the key is being prepared, or is cached while the trigger is not registered, and the two compilers disagree on it |
| `QueryCache.RotationPackagesStaleIff` | daemon/authorizer/impl/prepared_query_cache.go:44-59 | The same for the package list: a list being read, or one cached while the trigger is not registered |
| `QueryCache.StaleEverIff` | daemon/authorizer/impl/prepared_query_cache.go:178-201 | Some run from the start reaches a stale entry for a key if and only if some compiler gives a query for it that a later one does not |
| `QueryCache.StaleStays` | daemon/authorizer/impl/prepared_query_cache.go:178-201 | In every run a stale entry is still stale after any number of steps without a rotation |
| `QueryCache.QueryStraddle` | daemon/authorizer/impl/prepared_query_cache.go:92-126 | One preparation that straddles a rotation leaves a stale entry, with the trigger registered |
| `QueryCache.QueryGap` | daemon/authorizer/impl/prepared_query_cache.go:188-193 | One rotation between the mark and the registration leaves a stale entry, with nothing in flight when it comes |
| `QueryCache.PackagesStraddle` | daemon/authorizer/impl/prepared_query_cache.go:44-59 | One package read that straddles a rotation leaves the old list, with the trigger registered |
| `QueryCache.PackagesGap` | daemon/authorizer/impl/prepared_query_cache.go:188-193 | One rotation between the mark and the registration leaves the old list, with nothing being read when it comes |
| `Scheduler.Fold` | daemon/authorizer/plugins/edge/plugin.go:369-377 | The union of the modes, in any order |
| `Scheduler.RequestPendingOrDispatched` | daemon/authorizer/plugins/edge/plugin.go:156-234 | From the turn that took it in, all modes of a request are pending or one task was started with all of them |
| `Scheduler.PendingWasRequested` | daemon/authorizer/plugins/edge/plugin.go:156-234 | Nothing is pending that no request asked for |
| `Scheduler.PendingIff` | daemon/authorizer/plugins/edge/plugin.go:190-207 | A mode is pending exactly when some request asked for it and no task was started since |
| `Scheduler.DispatchedIff` | daemon/authorizer/plugins/edge/plugin.go:199-207 | A turn starts a task exactly when it reads none as running: with exactly the modes asked for since the last task, and if there are none with what the last tick was given |
| `Scheduler.EveryFourthTickDiffs` | daemon/authorizer/plugins/edge/plugin.go:176-187 | The first tick and every fourth after it is given the delete-mode sync, all others the watermark sync |
| `Scheduler.TickDiffStartedIff` | daemon/authorizer/plugins/edge/plugin.go:199-207 | The delete-mode sync due at a tick is started in that turn if and only if no task runs and nothing is pending, or the pending requests ask for one |
| `Scheduler.Task` | daemon/authorizer/plugins/edge/plugin.go:250-322 | The sync runs a task executes for its modes |
| `Scheduler.TaskCoversModes` | daemon/authorizer/plugins/edge/plugin.go:250-322 | Every meaningful mode of a task is carried out by one of its runs |
| `Scheduler.RunsOnlyAsked` | daemon/authorizer/plugins/edge/plugin.go:250-322 | A run deletes only if the delete mode was asked for, and likewise for the others; the unknown mode runs one full sync; no task has more than two runs |
| `Scheduler.RunsNeverMix` | daemon/authorizer/plugins/edge/plugin.go:250-322 | No run combines the watermark with the delete pass; every run brings the manifest along |
| `Scheduler.RequestServed` | daemon/authorizer/plugins/edge/plugin.go:156-234 | Every meaningful mode ever requested is pending or is carried out by a run of a task started since |
| `Policy.GetPolicyPackages` | internal/runtime/bundles.go:223-249 | Exactly the non-empty names in the listing, in strictly ascending order, whatever the order of the listing; an error exactly when an entry does not parse |
| `Policy.RootOf` | internal/runtime/bundles.go:264-276 | The package name up to its first dot |
| `Policy.PolicyRoots` | internal/runtime/bundles.go:264-276 | Each non-empty root of a package, once |
| `Policy.DefaultPolicyRoots` | daemon/authorizer/impl/access.go:281-285 | Each root but the doelbinding one, once |
| `Policy.SelectPolicyRoot` | internal/runtime/bundles.go:295-319 | The choice depends on the set of roots and the configured one: none, not loaded, the only one, or ambiguous |
| `Policy.PolicyPath` | daemon/authorizer/impl/access.go:257-276 | The package chosen is a function of the set of loaded packages, the configured root and the selection: order and repetitions in the listing do not matter |
| `Policy.SelectionConfined` | daemon/authorizer/impl/access.go:278-298 | A selecting request gets only a loaded package under the doelbinding prefix; any other gets the root of a loaded package outside it |
| `Policy.SelectedIsServed` | daemon/authorizer/impl/access.go:289-298 | A selection is answered with the package of that name under the doelbinding prefix if it is loaded, and with an error otherwise |
| `Policy.DefaultIsServed` | internal/runtime/bundles.go:295-319 | Without a selection: a configured root that a loaded package has is returned, one that none has is an error; with none configured a sole root is returned, two or more are an error |
| `Policy.NothingServes` | internal/runtime/bundles.go:295-319 | Without a selection and without a loaded package outside the doelbinding prefix: an error |
| `Stats.SubjectNodeExact` | internal/eds/pkg/ds/stats.go:84-86 | Subjects share a node exactly when types agree and both or neither are wildcards |
| `Stats.CountRelation` | internal/eds/pkg/ds/stats.go:78-131 | Counts one relation at each of its nodes, growing the nested maps where needed |
| `Stats.CountRelations` | internal/eds/pkg/ds/stats.go:51-64 | The tree after counting every relation of the scan |
| `Stats.CountObjects` | internal/eds/pkg/ds/stats.go:36-49 | The tree after counting every object of the scan |
| `Stats.ObjectsCounted` | internal/eds/pkg/ds/stats.go:66-76 | Each type's object count is the number of its objects; no relation count changes |
| `Stats.IncCounts` | internal/eds/pkg/ds/stats.go:78-131 | Counting a relation raises by one exactly the nodes it is under |
| `Stats.StatsExact` | internal/eds/pkg/ds/stats.go:14-64 | For every store, after the object count and the scan of the object index each node's count is the number of stored relations under it, and each type's object count the number of its objects |
| `Stats.WildcardsSplit` | internal/eds/pkg/ds/stats.go:84-86 | For every store a subject type's own node counts its relations with named subjects, and its `:*` node those with the wildcard |
| `Stats.ChildrenAddUp` | internal/eds/pkg/ds/stats.go:78-131 | Relation counts add up to their type's, subject counts to their relation's, subject-relation counts to at most their subject's |

## Left out

- The permission graph search, the model check of a relation and the request validators: they are in libraries that are not part of the repository; validity is a parameter.
- `Hash()`: a parameter; only what is listed above is assumed of it.
- The choice of direction for a filter: it rests on a completeness test in a library that is not part of the repository, so queries are proved for both directions.
- The insides of the cuckoo filter, of bbolt and of Postgres; key size limits and I/O errors other than those that are steps of the sync.
- Page tokens as Postgres encodes them in JSON, and its row iterator as an object: the token is the row's identifier, the rows a list.
- Postgres under concurrent writers: conditional writes are proved for the one-writer store.
- Mutation of request messages in place by the metadata and set handlers, and aliasing of messages: records are values here.
- The statistics tree as nested pointers: the tree is a value that is replaced. Its objects are given by their types, in scan order.
- Wrap-around of 32-bit counters and of the filter size: counts are unbounded.
- The import's counters, and messages with an unknown opcode, which only add to the errors. Which relations a delete with relations takes is a parameter of the message; on BoltDB it is what `HitExact` says.
- GetObject, GetObjectMany, and objects attached to relation answers; GetObjects pages like relations, with a filter that accepts everything.
- Where a watermark-mode export starts: the exported stream is whatever the source sends.
- The error goroutine of a sync and its channel: it only logs.
- Scheduler liveness and the `running` flag: what a turn reads of the flag is left open, so only safety is claimed.
- The runtime's compiler triggers: replacing the compiler and running them is taken to be one step.
- Servers that fail to listen, gateways and shut-down: start-up is modelled up to serving.
- Evaluating policies, decision logs, manifests and migrations, gRPC and HTTP, certificates, tokens, the git and Entra plugins, the command line tool, configuration and templates: input and output or wrappers around other code.

/**
 Importing a stream of set requests, and importing it again
 (internal/eds/pkg/directory/v3/importer.go, db/cmd/migrate_to_postgres.go).
 */
module Importer {
  import opened Wrappers
  import opened Watermark
  import opened Versioned

  /**
   What a message asks for.  A delete takes the message's own item; a delete with relations also the
   ones `also` picks out, which depend on the message alone.
   */
  datatype Opcode<!K> = OpSet | OpDelete(also: K -> bool)

  /** One request of the stream, and the local time at which it is handled. */
  datatype Message<!K, T> = Message(key: K, record: Record<T>, now: Timestamp, op: Opcode<K>)

  /** The set and delete handlers: a message the validators reject changes nothing. */
  function ImportOne<K(==), T>(store: Store<K, T>, msg: Message<K, T>, valid: T -> bool, hash: T -> string): Store<K, T> {
    if !valid(msg.record.body) then store
    else if msg.op.OpSet? then Apply(store, Set(msg.key, msg.record, "", msg.now), hash)
    else map k | k in store && !Speaks(msg, k) :: store[k]
  }

  /** The message says something about the key. */
  predicate Speaks<K(==), T>(msg: Message<K, T>, k: K) {
    msg.key == k || (msg.op.OpDelete? && msg.op.also(k))
  }

  /** And this is what: some content, or that there is none. */
  function Word<K, T>(msg: Message<K, T>): Option<T> {
    if msg.op.OpSet? then Some(msg.record.body) else None
  }

  function Import<K(==), T>(store: Store<K, T>, msgs: seq<Message<K, T>>, valid: T -> bool, hash: T -> string): Store<K, T> {
    if msgs == [] then store
    else ImportOne(Import(store, msgs[..|msgs| - 1], valid, hash), msgs[|msgs| - 1], valid, hash)
  }

  /** How many of the first `n` messages the validators reject. */
  function Rejected<K, T>(msgs: seq<Message<K, T>>, n: nat, valid: T -> bool): nat
    requires n <= |msgs|
  {
    if n == 0 then 0 else Rejected(msgs, n - 1, valid) + (if valid(msgs[n - 1].record.body) then 0 else 1)
  }

  /** The stream loop. */
  method ImportStream<K(==), T>(store: Store<K, T>, msgs: seq<Message<K, T>>, valid: T -> bool, hash: T -> string)
    returns (result: Store<K, T>, errors: nat)
    ensures result == Import(store, msgs, valid, hash)
    ensures errors == Rejected(msgs, |msgs|, valid)
  {
    result, errors := store, 0;
    for i := 0 to |msgs|
      invariant result == Import(store, msgs[..i], valid, hash)
      invariant errors == Rejected(msgs, i, valid)
    {
      var msg := msgs[i];
      assert msgs[..i + 1][..i] == msgs[..i];
      if !valid(msg.record.body) {
        errors := errors + 1;
      } else if msg.op.OpSet? {
        var cur := Lookup(result, msg.key);
        var outcome := SetRecord(cur, msg.record, "", msg.now, hash);
        if outcome.Written? {
          result := result[msg.key := outcome.record];
        }
      } else {
        result := map k | k in result && !Speaks(msg, k) :: result[k];
      }
    }
    assert msgs[..|msgs|] == msgs;
  }

  /** What a store says under a key, bookkeeping aside. */
  function Content<K(==), T>(store: Store<K, T>, k: K): Option<T> {
    if k in store then Some(store[k].body) else None
  }

  /** The last valid word of a stream on a key, if it says anything about it. */
  function LastWord<K(==), T>(msgs: seq<Message<K, T>>, k: K, valid: T -> bool): Option<Option<T>> {
    if msgs == [] then None
    else
      var msg := msgs[|msgs| - 1];
      if Speaks(msg, k) && valid(msg.record.body) then Some(Word(msg))
      else LastWord(msgs[..|msgs| - 1], k, valid)
  }

  ghost predicate Sound<K, T(!new)>(store: Store<K, T>, hash: T -> string) {
    HashOk(hash) && Injective(hash) && EtagsOk(store, hash)
  }

  lemma ImportOneContent<K, T(!new)>(store: Store<K, T>, msg: Message<K, T>, valid: T -> bool, hash: T -> string, k: K)
    requires Sound(store, hash)
    ensures EtagsOk(ImportOne(store, msg, valid, hash), hash)
    ensures Content(ImportOne(store, msg, valid, hash), k)
            == if Speaks(msg, k) && valid(msg.record.body) then Word(msg) else Content(store, k)
  {
    SetAcceptedIff(store, msg.key, msg.record, "", msg.now, hash);
  }

  /** After an import each key says the stream's last word on it, or what it said before. */
  lemma {:induction false} ImportContent<K, T(!new)>(
      store: Store<K, T>, msgs: seq<Message<K, T>>, valid: T -> bool, hash: T -> string, k: K)
    requires Sound(store, hash)
    ensures EtagsOk(Import(store, msgs, valid, hash), hash)
    ensures Content(Import(store, msgs, valid, hash), k)
            == if LastWord(msgs, k, valid).Some? then LastWord(msgs, k, valid).value else Content(store, k)
    decreases |msgs|
  {
    if msgs != [] {
      var n := |msgs| - 1;
      ImportContent(store, msgs[..n], valid, hash, k);
      ImportOneContent(Import(store, msgs[..n], valid, hash), msgs[n], valid, hash, k);
    }
  }

  // ---- What single messages do, in their own terms ----

  /** A delete takes its own item and what it names besides, and leaves every other record as it is. */
  lemma DeleteTakes<K, T>(store: Store<K, T>, msg: Message<K, T>, valid: T -> bool, hash: T -> string, k: K)
    requires msg.op.OpDelete? && valid(msg.record.body)
    ensures k in ImportOne(store, msg, valid, hash) <==> k in store && k != msg.key && !msg.op.also(k)
    ensures k in ImportOne(store, msg, valid, hash) ==> ImportOne(store, msg, valid, hash)[k] == store[k]
  {
  }

  /** A set touches no other record, and a rejected message none at all. */
  lemma OthersKept<K, T>(store: Store<K, T>, msg: Message<K, T>, valid: T -> bool, hash: T -> string, k: K)
    requires !valid(msg.record.body) || (msg.op.OpSet? && k != msg.key)
    ensures Lookup(ImportOne(store, msg, valid, hash), k) == Lookup(store, k)
  {
  }

  /** A key that a delete of the stream takes, and no later set names, is absent after the import. */
  lemma {:induction false} TakenIsGone<K, T>(
      store: Store<K, T>, msgs: seq<Message<K, T>>, i: nat, valid: T -> bool, hash: T -> string, k: K)
    requires i < |msgs| && valid(msgs[i].record.body)
    requires msgs[i].op.OpDelete? && (k == msgs[i].key || msgs[i].op.also(k))
    requires forall j :: i < j < |msgs| && msgs[j].op.OpSet? && valid(msgs[j].record.body) ==> msgs[j].key != k
    ensures k !in Import(store, msgs, valid, hash)
    decreases |msgs|
  {
    var n := |msgs| - 1;
    var before := Import(store, msgs[..n], valid, hash);
    if i < n {
      TakenIsGone(store, msgs[..n], i, valid, hash, k);
    }
    if msgs[n].op.OpDelete? && valid(msgs[n].record.body) {
      DeleteTakes(before, msgs[n], valid, hash, k);
    } else {
      OthersKept(before, msgs[n], valid, hash, k);
    }
  }

  /** A key that a set of the stream names, and nothing later sets or deletes, says what was set. */
  lemma {:induction false} SetIsKept<K, T(!new)>(
      store: Store<K, T>, msgs: seq<Message<K, T>>, i: nat, valid: T -> bool, hash: T -> string)
    requires Sound(store, hash) && i < |msgs| && valid(msgs[i].record.body) && msgs[i].op.OpSet?
    requires forall j :: i < j < |msgs| && valid(msgs[j].record.body) ==>
               msgs[j].key != msgs[i].key && (msgs[j].op.OpDelete? ==> !msgs[j].op.also(msgs[i].key))
    ensures Content(Import(store, msgs, valid, hash), msgs[i].key) == Some(msgs[i].record.body)
    decreases |msgs|
  {
    var n := |msgs| - 1;
    var before := Import(store, msgs[..n], valid, hash);
    if i < n {
      SetIsKept(store, msgs[..n], i, valid, hash);
    } else {
      ImportContent(store, msgs[..n], valid, hash, msgs[n].key);
      SetAcceptedIff(before, msgs[n].key, msgs[n].record, "", msgs[n].now, hash);
    }
  }

  /** Two streams with the same requests in the same order; only bookkeeping and the handling times differ. */
  ghost predicate SameStream<K, T>(a: seq<Message<K, T>>, b: seq<Message<K, T>>) {
    |a| == |b| && forall i :: 0 <= i < |a| ==>
      a[i].key == b[i].key && a[i].record.body == b[i].record.body && a[i].op == b[i].op
  }

  lemma {:induction false} SameStreamLastWord<K, T>(
      a: seq<Message<K, T>>, b: seq<Message<K, T>>, k: K, valid: T -> bool)
    requires SameStream(a, b)
    ensures LastWord(a, k, valid) == LastWord(b, k, valid)
    decreases |a|
  {
    if a != [] {
      SameStreamLastWord(a[..|a| - 1], b[..|b| - 1], k, valid);
    }
  }

  lemma {:induction false} PrefixWord<K, T>(msgs: seq<Message<K, T>>, n: nat, k: K, valid: T -> bool)
    requires n <= |msgs| && LastWord(msgs, k, valid).None?
    ensures LastWord(msgs[..n], k, valid).None?
    decreases |msgs|
  {
    if n < |msgs| {
      assert msgs[..|msgs| - 1][..n] == msgs[..n];
      PrefixWord(msgs[..|msgs| - 1], n, k, valid);
    } else {
      assert msgs[..n] == msgs;
    }
  }

  /**
   Restarting an import.  A first attempt got through `n` messages, a second one, at other times,
   through all: every key ends with the content and the etag one uninterrupted import gives it.
   */
  lemma ReplayAfterFailure<K, T(!new)>(
      store: Store<K, T>, first: seq<Message<K, T>>, again: seq<Message<K, T>>, once: seq<Message<K, T>>, n: nat,
      valid: T -> bool, hash: T -> string, k: K)
    requires Sound(store, hash) && SameStream(again, once) && n <= |once| && SameStream(first, once[..n])
    ensures var replayed := Import(Import(store, first, valid, hash), again, valid, hash);
            var direct := Import(store, once, valid, hash);
            && Content(replayed, k) == Content(direct, k)
            && (k in replayed ==> k in direct && replayed[k].etag == direct[k].etag)
  {
    var partial := Import(store, first, valid, hash);
    ImportContent(store, first, valid, hash, k);
    ImportContent(partial, again, valid, hash, k);
    ImportContent(store, once, valid, hash, k);
    SameStreamLastWord(again, once, k, valid);
    SameStreamLastWord(first, once[..n], k, valid);
    if LastWord(once, k, valid).None? {
      PrefixWord(once, n, k, valid);
    }
  }

  /** Handling the message leaves the store alone: there is nothing to set, or nothing to delete. */
  ghost predicate Idle<K, T>(store: Store<K, T>, msg: Message<K, T>, hash: T -> string) {
    if msg.op.OpSet? then SetOutcome(Lookup(store, msg.key), msg.record, "", msg.now, hash).Same?
    else forall k :: k in store ==> !Speaks(msg, k)
  }

  /** No message of the stream makes the handlers write. */
  ghost predicate Quiet<K, T>(store: Store<K, T>, msgs: seq<Message<K, T>>, valid: T -> bool, hash: T -> string) {
    forall i :: 0 <= i < |msgs| && valid(msgs[i].record.body) ==>
      Idle(Import(store, msgs[..i], valid, hash), msgs[i], hash)
  }

  /** The stream never says two different things about one key. */
  ghost predicate Consistent<K(!new), T>(msgs: seq<Message<K, T>>, valid: T -> bool) {
    forall i, j, k ::
      (0 <= i < |msgs| && 0 <= j < |msgs| && Speaks(msgs[i], k) && Speaks(msgs[j], k)
       && valid(msgs[i].record.body) && valid(msgs[j].record.body))
      ==> Word(msgs[i]) == Word(msgs[j])
  }

  lemma IdleUnchanged<K, T>(store: Store<K, T>, msg: Message<K, T>, valid: T -> bool, hash: T -> string)
    requires valid(msg.record.body) ==> Idle(store, msg, hash)
    ensures ImportOne(store, msg, valid, hash) == store
  {
  }

  lemma {:induction false} QuietUnchanged<K, T>(
      store: Store<K, T>, msgs: seq<Message<K, T>>, valid: T -> bool, hash: T -> string, i: nat)
    requires i <= |msgs| && Quiet(store, msgs, valid, hash)
    ensures Import(store, msgs[..i], valid, hash) == store
    decreases i
  {
    if i > 0 {
      QuietUnchanged(store, msgs, valid, hash, i - 1);
      assert msgs[..i][..i - 1] == msgs[..i - 1];
      IdleUnchanged(store, msgs[i - 1], valid, hash);
    }
  }

  /** A message is idle exactly when every key it speaks of already says what the message says. */
  lemma IdleIff<K(!new), T(!new)>(store: Store<K, T>, msg: Message<K, T>, hash: T -> string)
    requires Sound(store, hash)
    ensures Idle(store, msg, hash) <==> forall k :: Speaks(msg, k) ==> Content(store, k) == Word(msg)
  {
    if msg.op.OpSet? {
      assert Speaks(msg, msg.key);
    }
  }

  lemma {:induction false} LastWordSpoken<K, T>(msgs: seq<Message<K, T>>, i: nat, k: K, valid: T -> bool) returns (j: nat)
    requires i < |msgs| && Speaks(msgs[i], k) && valid(msgs[i].record.body)
    ensures j < |msgs| && Speaks(msgs[j], k) && valid(msgs[j].record.body)
    ensures LastWord(msgs, k, valid) == Some(Word(msgs[j]))
    decreases |msgs|
  {
    var n := |msgs| - 1;
    if Speaks(msgs[n], k) && valid(msgs[n].record.body) {
      j := n;
    } else {
      j := LastWordSpoken(msgs[..n], i, k, valid);
    }
  }

  /** What is stored after an import is the last word on each key the stream speaks of. */
  lemma ImportedWord<K, T(!new)>(
      store: Store<K, T>, msgs: seq<Message<K, T>>, i: nat, k: K, valid: T -> bool, hash: T -> string) returns (j: nat)
    requires Sound(store, hash) && i < |msgs| && Speaks(msgs[i], k) && valid(msgs[i].record.body)
    ensures j < |msgs| && Speaks(msgs[j], k) && valid(msgs[j].record.body)
    ensures Content(Import(store, msgs, valid, hash), k) == Word(msgs[j])
  {
    j := LastWordSpoken(msgs, i, k, valid);
    ImportContent(store, msgs, valid, hash, k);
  }

  /** Importing a stream a second time writes nothing exactly when the stream never contradicts itself. */
  lemma ReimportQuietIff<K(!new), T(!new)>(
      store: Store<K, T>, once: seq<Message<K, T>>, again: seq<Message<K, T>>, valid: T -> bool, hash: T -> string)
    requires Sound(store, hash) && SameStream(again, once)
    ensures Quiet(Import(store, once, valid, hash), again, valid, hash) <==> Consistent(once, valid)
  {
    if Quiet(Import(store, once, valid, hash), again, valid, hash) {
      forall i, j, k | 0 <= i < |once| && 0 <= j < |once| && Speaks(once[i], k) && Speaks(once[j], k)
                       && valid(once[i].record.body) && valid(once[j].record.body)
        ensures Word(once[i]) == Word(once[j])
      {
        QuietSays(store, once, again, i, k, valid, hash);
        QuietSays(store, once, again, j, k, valid, hash);
      }
    }
    if Consistent(once, valid) {
      ConsistentQuiet(store, once, again, |again|, valid, hash);
      assert again[..|again|] == again;
    }
  }

  lemma {:induction false} ImportSound<K, T(!new)>(
      store: Store<K, T>, msgs: seq<Message<K, T>>, valid: T -> bool, hash: T -> string)
    requires Sound(store, hash)
    ensures Sound(Import(store, msgs, valid, hash), hash)
    decreases |msgs|
  {
    if msgs != [] {
      var n := |msgs| - 1;
      ImportSound(store, msgs[..n], valid, hash);
      ImportOneContent(Import(store, msgs[..n], valid, hash), msgs[n], valid, hash, msgs[n].key);
    }
  }

  lemma QuietSays<K(!new), T(!new)>(
      store: Store<K, T>, once: seq<Message<K, T>>, again: seq<Message<K, T>>, i: nat, k: K,
      valid: T -> bool, hash: T -> string)
    requires Sound(store, hash) && SameStream(again, once)
    requires Quiet(Import(store, once, valid, hash), again, valid, hash)
    requires i < |once| && Speaks(once[i], k) && valid(once[i].record.body)
    ensures Content(Import(store, once, valid, hash), k) == Word(once[i])
  {
    var done := Import(store, once, valid, hash);
    ImportSound(store, once, valid, hash);
    QuietUnchanged(done, again, valid, hash, i);
    assert valid(again[i].record.body) && Speaks(again[i], k);
    IdleIff(done, again[i], hash);
  }

  lemma ConsistentIdle<K(!new), T(!new)>(
      store: Store<K, T>, once: seq<Message<K, T>>, again: seq<Message<K, T>>, i: nat, valid: T -> bool, hash: T -> string)
    requires Sound(store, hash) && SameStream(again, once) && Consistent(once, valid)
    requires i < |again| && valid(again[i].record.body)
    ensures Idle(Import(store, once, valid, hash), again[i], hash)
  {
    var done := Import(store, once, valid, hash);
    ImportSound(store, once, valid, hash);
    forall k | Speaks(again[i], k) ensures Content(done, k) == Word(again[i]) {
      assert Speaks(once[i], k) && valid(once[i].record.body);
      var j := ImportedWord(store, once, i, k, valid, hash);
    }
    IdleIff(done, again[i], hash);
  }

  lemma {:induction false} ConsistentQuiet<K(!new), T(!new)>(
      store: Store<K, T>, once: seq<Message<K, T>>, again: seq<Message<K, T>>, n: nat, valid: T -> bool, hash: T -> string)
    requires Sound(store, hash) && SameStream(again, once) && Consistent(once, valid) && n <= |again|
    ensures Quiet(Import(store, once, valid, hash), again[..n], valid, hash)
    decreases n
  {
    var done := Import(store, once, valid, hash);
    if n > 0 {
      ConsistentQuiet(store, once, again, n - 1, valid, hash);
      var before := again[..n - 1];
      QuietUnchanged(done, before, valid, hash, n - 1);
      assert before[..n - 1] == before;
      forall i | 0 <= i < n && valid(again[..n][i].record.body)
        ensures Idle(Import(done, again[..n][..i], valid, hash), again[..n][i], hash)
      {
        assert again[..n][..i] == again[..i];
        if i < n - 1 {
          assert before[..i] == again[..i] && before[i] == again[i];
        } else {
          ConsistentIdle(store, once, again, i, valid, hash);
        }
      }
    }
  }

  /** A stream that sets one key to two contents is not quiet the second time, whatever the store held. */
  lemma ContradictionRewrites<K(!new), T(!new)>(
      store: Store<K, T>, key: K, a: Record<T>, b: Record<T>, now: Timestamp, valid: T -> bool, hash: T -> string)
    requires Sound(store, hash) && a.body != b.body && valid(a.body) && valid(b.body)
    ensures var msgs := [Message(key, a, now, OpSet), Message(key, b, now, OpSet)];
            !Quiet(Import(store, msgs, valid, hash), msgs, valid, hash)
  {
    var msgs := [Message(key, a, now, OpSet), Message(key, b, now, OpSet)];
    assert Speaks(msgs[0], key) && Speaks(msgs[1], key) && Word(msgs[0]) != Word(msgs[1]);
    ReimportQuietIff(store, msgs, msgs, valid, hash);
  }
}

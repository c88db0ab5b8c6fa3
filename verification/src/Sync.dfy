/**
 Directory sync as a state machine: a producer and a subscriber joined by a bounded channel, then a
 delete pass and the watermark (internal/eds/pkg/datasync/directory.go, datasync.go, handlers.go).

 A run is a sequence of steps, in any interleaving.  Faults are steps too: the export may break off
 at any message, the filter may fail to take a key, a transaction may not begin or not commit, the
 watermark file may not be writable.
 */
module Sync {
  import opened Wrappers
  import opened Watermark
  import opened Versioned
  import opened Importer
  import opened Relations
  import opened FilterKeys

  /** A message of the export stream. */
  datatype Msg<T> = Item(key: ItemKey, body: T) | Unknown

  /**
   What a sync is given.  `lookup` answers for the filter: which keys it took, whether it ever failed
   to take one, and the key asked about.
   */
  datatype Config<!T> = Config(
    stream: seq<Msg<T>>, diff: bool, capacity: nat,
    initial: Store<ItemKey, T>, watermark: Timestamp,
    valid: T -> bool, hash: T -> string,
    lookup: (seq<string>, bool, string) -> bool)

  datatype Producer<T> = Receiving | Holding(msg: Msg<T>) | Stopped(ok: bool)

  datatype Subscriber = Draining | Committed | Aborted

  datatype Main = Waiting | Diffing | Stamping | Finished | Failed

  datatype State<T> = State(
    received: nat, producer: Producer<T>, inserted: seq<string>, lossy: bool,
    chan: seq<Msg<T>>,
    subscriber: Subscriber, txn: Store<ItemKey, T>, applied: seq<Message<ItemKey, T>>, ts: Timestamp,
    target: Store<ItemKey, T>, main: Main, watermark: Timestamp)

  /** The watermark file is replaced, or cannot be opened, or is left truncated and then reads as none. */
  datatype StampResult = Stamped | Unopened | Truncated

  datatype Step =
    | Receive(taken: bool)      // next message from the stream; the filter took its key or not
    | ReceiveError              // the stream, or opening it, failed
    | EndOfStream
    | Send                      // into the channel, when there is room
    | Handle(now: Timestamp)    // the subscriber takes a message and runs its handler at local time `now`
    | Commit(ok: bool)          // the channel is closed and empty: the batch ends
    | Abort                     // the batch could not begin
    | Join                      // both goroutines have returned
    | Diff(ok: bool)            // the delete pass, one batch
    | Stamp(result: StampResult) // write the watermark

  predicate IsFault(step: Step) {
    match step
    case Receive(taken) => !taken
    case ReceiveError => true
    case Commit(ok) => !ok
    case Abort => true
    case Diff(ok) => !ok
    case Stamp(result) => !result.Stamped?
    case _ => false
  }

  function Init<T>(cfg: Config<T>): State<T> {
    State(0, Receiving, [], false, [], Draining, cfg.initial, [], ZERO, cfg.initial, Waiting, cfg.watermark)
  }

  predicate Enabled<T>(cfg: Config<T>, s: State<T>, step: Step) {
    match step
    case Receive(_) => s.producer.Receiving? && s.received < |cfg.stream|
    case ReceiveError => s.producer.Receiving?
    case EndOfStream => s.producer.Receiving? && s.received == |cfg.stream|
    case Send => s.producer.Holding? && |s.chan| < cfg.capacity
    case Handle(_) => s.subscriber.Draining? && s.chan != []
    case Commit(_) => s.subscriber.Draining? && s.chan == [] && s.producer.Stopped?
    case Abort => s.subscriber.Draining? && s.applied == []
    case Join => s.main.Waiting? && s.producer.Stopped? && !s.subscriber.Draining?
    case Diff(_) => s.main.Diffing?
    case Stamp(_) => s.main.Stamping?
  }

  /** The delete pass drops every item the filter does not know, unless its delete handler refuses it. */
  predicate Dropped<T>(cfg: Config<T>, inserted: seq<string>, lossy: bool, k: ItemKey, record: Record<T>) {
    !cfg.lookup(inserted, lossy, FilterKey(k)) && cfg.valid(record.body)
  }

  function Pruned<T>(cfg: Config<T>, inserted: seq<string>, lossy: bool, store: Store<ItemKey, T>): Store<ItemKey, T> {
    map k | k in store && !Dropped(cfg, inserted, lossy, k, store[k]) :: store[k]
  }

  /** The store without the dropped ones among the scanned items. */
  ghost function PrunedAmong<T>(cfg: Config<T>, inserted: seq<string>, lossy: bool, store: Store<ItemKey, T>, scan: seq<ItemKey>)
    : Store<ItemKey, T>
  {
    map k | k in store && !(k in scan && Dropped(cfg, inserted, lossy, k, store[k])) :: store[k]
  }

  /** `diffObjects` and `diffRelations`: read the scan to its end, then delete what was stale. */
  method DiffItems<T>(cfg: Config<T>, inserted: seq<string>, lossy: bool, store: Store<ItemKey, T>, scan: seq<ItemKey>)
    returns (result: Store<ItemKey, T>)
    requires forall k :: k in scan ==> k in store
    ensures result == PrunedAmong(cfg, inserted, lossy, store, scan)
  {
    var stale: seq<ItemKey> := [];
    for i := 0 to |scan|
      invariant forall k :: k in stale <==> k in scan[..i] && !cfg.lookup(inserted, lossy, FilterKey(k))
    {
      if !cfg.lookup(inserted, lossy, FilterKey(scan[i])) {
        stale := stale + [scan[i]];
      }
    }
    assert scan[..|scan|] == scan;
    result := store;
    for i := 0 to |stale|
      invariant forall k :: k in result <==> k in store && !(k in stale[..i] && cfg.valid(store[k].body))
      invariant forall k :: k in result ==> result[k] == store[k]
    {
      assert stale[i] in stale;
      if cfg.valid(store[stale[i]].body) {
        result := result - {stale[i]};
      }
    }
    assert stale[..|stale|] == stale;
  }

  /** `diff`: objects first, then relations. */
  method DiffPass<T>(
      cfg: Config<T>, inserted: seq<string>, lossy: bool, store: Store<ItemKey, T>,
      objects: seq<ItemKey>, relations: seq<ItemKey>)
    returns (result: Store<ItemKey, T>)
    requires forall k :: k in objects <==> k in store && k.ObjectItem?
    requires forall k :: k in relations <==> k in store && k.RelationItem?
    ensures result == Pruned(cfg, inserted, lossy, store)
  {
    var half := DiffItems(cfg, inserted, lossy, store, objects);
    result := DiffItems(cfg, inserted, lossy, half, relations);
  }

  function Exec<T>(cfg: Config<T>, s: State<T>, step: Step): State<T>
    requires Enabled(cfg, s, step)
  {
    match step
    case Receive(taken) =>
      var msg := cfg.stream[s.received];
      var s' := s.(received := s.received + 1);
      if msg.Unknown? then s'
      else if !cfg.diff then s'.(producer := Holding(msg))
      else if taken then s'.(producer := Holding(msg), inserted := s.inserted + [FilterKey(msg.key)])
      else s'.(producer := Holding(msg), lossy := true)
    case ReceiveError => s.(producer := Stopped(false))
    case EndOfStream => s.(producer := Stopped(true))
    case Send => s.(producer := Receiving, chan := s.chan + [s.producer.msg])
    case Handle(now) =>
      var msg := s.chan[0];
      var s' := s.(chan := s.chan[1..]);
      if msg.Unknown? then s'
      else
        var m := Message(msg.key, Record(msg.body, "", ZERO, ZERO), now, OpSet);
        s'.(txn := ImportOne(s.txn, m, cfg.valid, cfg.hash), applied := s.applied + [m],
            ts := if cfg.valid(msg.body) then MaxTS(s.ts, now) else s.ts)
    case Commit(ok) =>
      if ok then s.(subscriber := Committed, target := s.txn) else s.(subscriber := Aborted)
    case Abort => s.(subscriber := Aborted)
    case Join =>
      if s.producer == Stopped(false) || s.subscriber.Aborted? then s.(main := Failed)
      else s.(main := if cfg.diff then Diffing else Stamping)
    case Diff(ok) =>
      if ok then s.(target := Pruned(cfg, s.inserted, s.lossy, s.target), main := Stamping) else s.(main := Failed)
    case Stamp(result) =>
      match result {
        case Stamped => s.(watermark := MaxTS(s.watermark, s.ts), main := Finished)
        case Unopened => s.(main := Failed)
        case Truncated => s.(watermark := ZERO, main := Failed)
      }
  }

  /** A run of steps, each enabled where it is taken. */
  ghost predicate Legal<T(!new)>(cfg: Config<T>, steps: seq<Step>) {
    steps == [] ||
    (var n := |steps| - 1;
     Legal(cfg, steps[..n]) && Enabled(cfg, After(cfg, steps[..n]), steps[n]))
  }

  ghost function After<T(!new)>(cfg: Config<T>, steps: seq<Step>): State<T> {
    if steps == [] then Init(cfg)
    else
      var n := |steps| - 1;
      var s := After(cfg, steps[..n]);
      if Enabled(cfg, s, steps[n]) then Exec(cfg, s, steps[n]) else s
  }

  // ---- What every step keeps ----

  /** The messages of known kind, in order. */
  function Known<T>(msgs: seq<Msg<T>>): seq<Msg<T>> {
    if msgs == [] then []
    else
      var n := |msgs| - 1;
      Known(msgs[..n]) + (if msgs[n].Item? then [msgs[n]] else [])
  }

  function Handled<T>(applied: seq<Message<ItemKey, T>>): seq<Msg<T>> {
    if applied == [] then []
    else
      var n := |applied| - 1;
      Handled(applied[..n]) + [Item(applied[n].key, applied[n].record.body)]
  }

  function InHand<T>(p: Producer<T>): seq<Msg<T>> {
    if p.Holding? then [p.msg] else []
  }

  /** Nothing is lost or reordered between the stream and the handlers. */
  ghost predicate Conserved<T>(cfg: Config<T>, s: State<T>) {
    && s.received <= |cfg.stream|
    && Known(cfg.stream[..s.received]) == Handled(s.applied) + s.chan + InHand(s.producer)
  }

  /** A sync only ever sets. */
  ghost predicate AllSets<T>(applied: seq<Message<ItemKey, T>>) {
    forall i :: 0 <= i < |applied| ==> applied[i].op.OpSet?
  }

  /** In delete mode the filter holds every key of the stream so far, if it took them all; otherwise it is not used. */
  ghost predicate FilterCovers<T>(cfg: Config<T>, s: State<T>) {
    s.received <= |cfg.stream| &&
    (!cfg.diff ==> s.inserted == [] && !s.lossy) &&
    (cfg.diff && !s.lossy ==>
       forall i :: 0 <= i < s.received && cfg.stream[i].Item? ==> FilterKey(cfg.stream[i].key) in s.inserted)
  }

  /** The filter holds nothing but keys of the stream. */
  ghost predicate FilterOnly<T>(cfg: Config<T>, s: State<T>) {
    s.received <= |cfg.stream| &&
    forall x :: x in s.inserted ==> exists i :: 0 <= i < s.received && KeyAt(cfg, i, x)
  }

  ghost predicate KeyAt<T>(cfg: Config<T>, i: nat, x: string)
    requires i < |cfg.stream|
  {
    cfg.stream[i].Item? && FilterKey(cfg.stream[i].key) == x
  }

  ghost predicate Ordered<T>(cfg: Config<T>, s: State<T>) {
    && (s.producer == Stopped(true) ==> s.received == |cfg.stream|)
    && (s.subscriber.Committed? ==> s.producer.Stopped? && s.chan == [])
    && (!s.main.Waiting? ==> s.producer.Stopped? && !s.subscriber.Draining?)
    && (s.main.Diffing? || s.main.Stamping? || s.main.Finished? ==> s.producer == Stopped(true) && s.subscriber.Committed?)
    && (s.main.Diffing? ==> cfg.diff)
  }

  /** What the target holds before the delete pass. */
  ghost function Base<T>(cfg: Config<T>, s: State<T>): Store<ItemKey, T> {
    if s.subscriber.Committed? then Import(cfg.initial, s.applied, cfg.valid, cfg.hash) else cfg.initial
  }

  ghost predicate Synced<T>(cfg: Config<T>, s: State<T>) {
    s.producer == Stopped(true) && s.subscriber.Committed? && cfg.diff
  }

  ghost predicate TargetOk<T>(cfg: Config<T>, s: State<T>) {
    && s.txn == Import(cfg.initial, s.applied, cfg.valid, cfg.hash)
    && (s.main.Waiting? || s.main.Diffing? || !cfg.diff ==> s.target == Base(cfg, s))
    && ((s.main.Stamping? || s.main.Finished?) && cfg.diff ==> s.target == Pruned(cfg, s.inserted, s.lossy, Base(cfg, s)))
    && (s.main.Failed? ==>
          s.target == Base(cfg, s) || (Synced(cfg, s) && s.target == Pruned(cfg, s.inserted, s.lossy, Base(cfg, s))))
  }

  ghost predicate WatermarkOk<T>(cfg: Config<T>, s: State<T>) {
    && (forall i :: 0 <= i < |s.applied| && cfg.valid(s.applied[i].record.body) ==> AtMost(s.applied[i].now, s.ts))
    && (s.main.Finished? ==> s.watermark == MaxTS(cfg.watermark, s.ts))
    && (!s.main.Finished? ==>
          || s.watermark == cfg.watermark
          || (s.main.Failed? && s.producer == Stopped(true) && s.subscriber.Committed? && s.watermark == ZERO))
  }

  ghost predicate Inv<T>(cfg: Config<T>, s: State<T>) {
    && AllSets(s.applied) && Conserved(cfg, s) && FilterCovers(cfg, s) && FilterOnly(cfg, s)
    && Ordered(cfg, s) && TargetOk(cfg, s) && WatermarkOk(cfg, s)
  }

  lemma KnownNext<T>(msgs: seq<Msg<T>>, n: nat)
    requires n < |msgs|
    ensures Known(msgs[..n + 1]) == Known(msgs[..n]) + (if msgs[n].Item? then [msgs[n]] else [])
  {
    assert msgs[..n + 1][..n] == msgs[..n];
  }

  lemma HandledNext<T>(applied: seq<Message<ItemKey, T>>, m: Message<ItemKey, T>)
    ensures Handled(applied + [m]) == Handled(applied) + [Item(m.key, m.record.body)]
  {
    assert (applied + [m])[..|applied|] == applied;
  }

  lemma {:induction false} KnownItems<T>(msgs: seq<Msg<T>>, i: nat)
    requires i < |Known(msgs)|
    ensures Known(msgs)[i].Item?
    decreases |msgs|
  {
    var n := |msgs| - 1;
    if i < |Known(msgs[..n])| {
      KnownItems(msgs[..n], i);
    }
  }

  lemma ConservedReceive<T>(cfg: Config<T>, s: State<T>, step: Step)
    requires step.Receive? && Conserved(cfg, s) && Enabled(cfg, s, step)
    ensures Conserved(cfg, Exec(cfg, s, step))
  {
    KnownNext(cfg.stream, s.received);
  }

  lemma ConservedSend<T>(cfg: Config<T>, s: State<T>)
    requires Conserved(cfg, s) && Enabled(cfg, s, Send)
    ensures Conserved(cfg, Exec(cfg, s, Send))
  {
    assert Handled(s.applied) + (s.chan + [s.producer.msg]) + [] == Handled(s.applied) + s.chan + InHand(s.producer);
  }

  /** Only messages of known kind ever reach the channel. */
  lemma HeadKnown<T>(cfg: Config<T>, s: State<T>)
    requires Conserved(cfg, s) && s.chan != []
    ensures s.chan[0].Item?
  {
    var i := |Handled(s.applied)|;
    assert Known(cfg.stream[..s.received])[i] == s.chan[0];
    KnownItems(cfg.stream[..s.received], i);
  }

  /** Moving the head of the channel to the handled messages changes nothing in between. */
  lemma HeadMoves<T>(applied: seq<Message<ItemKey, T>>, chan: seq<Msg<T>>, hand: seq<Msg<T>>, now: Timestamp)
    requires chan != [] && chan[0].Item?
    ensures var m := Message(chan[0].key, Record(chan[0].body, "", ZERO, ZERO), now, OpSet);
            Handled(applied + [m]) + chan[1..] + hand == Handled(applied) + chan + hand
  {
    var m := Message(chan[0].key, Record(chan[0].body, "", ZERO, ZERO), now, OpSet);
    HandledNext(applied, m);
    assert Handled(applied) + [chan[0]] + chan[1..] + hand == Handled(applied) + chan + hand;
  }

  lemma ConservedHandle<T>(cfg: Config<T>, s: State<T>, step: Step)
    requires step.Handle? && Conserved(cfg, s) && Enabled(cfg, s, step)
    ensures Conserved(cfg, Exec(cfg, s, step))
  {
    HeadKnown(cfg, s);
    HeadMoves(s.applied, s.chan, InHand(s.producer), step.now);
  }

  lemma ConservedStop<T>(cfg: Config<T>, s: State<T>, step: Step)
    requires (step.ReceiveError? || step.EndOfStream?) && Conserved(cfg, s) && Enabled(cfg, s, step)
    ensures Conserved(cfg, Exec(cfg, s, step))
  {
  }

  lemma ConservedOther<T>(cfg: Config<T>, s: State<T>, step: Step)
    requires step.Commit? || step.Abort? || step.Join? || step.Diff? || step.Stamp?
    requires Conserved(cfg, s) && Enabled(cfg, s, step)
    ensures Conserved(cfg, Exec(cfg, s, step))
  {
    var s' := Exec(cfg, s, step);
    assert s'.received == s.received && s'.applied == s.applied && s'.chan == s.chan && s'.producer == s.producer;
  }

  lemma ConservedStep<T>(cfg: Config<T>, s: State<T>, step: Step)
    requires Conserved(cfg, s) && Enabled(cfg, s, step)
    ensures Conserved(cfg, Exec(cfg, s, step))
  {
    match step
    case Receive(_) => ConservedReceive(cfg, s, step);
    case Send => ConservedSend(cfg, s);
    case Handle(_) => ConservedHandle(cfg, s, step);
    case ReceiveError => ConservedStop(cfg, s, step);
    case EndOfStream => ConservedStop(cfg, s, step);
    case _ => ConservedOther(cfg, s, step);
  }

  lemma SetsStep<T>(cfg: Config<T>, s: State<T>, step: Step)
    requires AllSets(s.applied) && Enabled(cfg, s, step)
    ensures AllSets(Exec(cfg, s, step).applied)
  {
  }

  lemma FilterStep<T>(cfg: Config<T>, s: State<T>, step: Step)
    requires FilterCovers(cfg, s) && Enabled(cfg, s, step)
    ensures FilterCovers(cfg, Exec(cfg, s, step))
  {
  }

  lemma FilterOnlyStep<T>(cfg: Config<T>, s: State<T>, step: Step)
    requires FilterOnly(cfg, s) && Enabled(cfg, s, step)
    ensures FilterOnly(cfg, Exec(cfg, s, step))
  {
    if step.Receive? {
      var s' := Exec(cfg, s, step);
      forall x | x in s'.inserted ensures exists i :: 0 <= i < s'.received && KeyAt(cfg, i, x) {
        if x in s.inserted {
          var i :| 0 <= i < s.received && KeyAt(cfg, i, x);
        } else {
          assert KeyAt(cfg, s.received, x);
        }
      }
    }
  }

  lemma OrderedStep<T>(cfg: Config<T>, s: State<T>, step: Step)
    requires Ordered(cfg, s) && Enabled(cfg, s, step)
    ensures Ordered(cfg, Exec(cfg, s, step))
  {
  }

  lemma WatermarkHandle<T>(cfg: Config<T>, s: State<T>, step: Step)
    requires step.Handle? && WatermarkOk(cfg, s) && Ordered(cfg, s) && Enabled(cfg, s, step)
    ensures WatermarkOk(cfg, Exec(cfg, s, step))
  {
  }

  lemma WatermarkOther<T>(cfg: Config<T>, s: State<T>, step: Step)
    requires !step.Handle? && WatermarkOk(cfg, s) && Ordered(cfg, s) && Enabled(cfg, s, step)
    ensures WatermarkOk(cfg, Exec(cfg, s, step))
  {
    assert Exec(cfg, s, step).applied == s.applied && Exec(cfg, s, step).ts == s.ts;
  }

  lemma TargetHandle<T>(cfg: Config<T>, s: State<T>, step: Step)
    requires step.Handle? && Ordered(cfg, s) && TargetOk(cfg, s) && Enabled(cfg, s, step)
    ensures TargetOk(cfg, Exec(cfg, s, step))
  {
    if s.chan[0].Item? {
      var m := Message(s.chan[0].key, Record(s.chan[0].body, "", ZERO, ZERO), step.now, OpSet);
      assert (s.applied + [m])[..|s.applied|] == s.applied;
    }
  }

  lemma TargetBatch<T>(cfg: Config<T>, s: State<T>, step: Step)
    requires step.Commit? || step.Abort?
    requires Ordered(cfg, s) && TargetOk(cfg, s) && Enabled(cfg, s, step)
    ensures TargetOk(cfg, Exec(cfg, s, step))
  {
  }

  lemma TargetJoin<T>(cfg: Config<T>, s: State<T>)
    requires Ordered(cfg, s) && TargetOk(cfg, s) && Enabled(cfg, s, Join)
    ensures TargetOk(cfg, Exec(cfg, s, Join))
  {
    assert Base(cfg, Exec(cfg, s, Join)) == Base(cfg, s);
  }

  lemma TargetDiff<T>(cfg: Config<T>, s: State<T>, step: Step)
    requires step.Diff? && Ordered(cfg, s) && TargetOk(cfg, s) && Enabled(cfg, s, step)
    ensures TargetOk(cfg, Exec(cfg, s, step))
  {
    assert Base(cfg, Exec(cfg, s, step)) == Base(cfg, s);
  }

  lemma TargetStamp<T>(cfg: Config<T>, s: State<T>, step: Step)
    requires step.Stamp? && Ordered(cfg, s) && TargetOk(cfg, s) && Enabled(cfg, s, step)
    ensures TargetOk(cfg, Exec(cfg, s, step))
  {
    assert Base(cfg, Exec(cfg, s, step)) == Base(cfg, s);
  }

  lemma TargetStep<T>(cfg: Config<T>, s: State<T>, step: Step)
    requires Ordered(cfg, s) && TargetOk(cfg, s) && Enabled(cfg, s, step)
    ensures TargetOk(cfg, Exec(cfg, s, step))
  {
    match step
    case Handle(_) => TargetHandle(cfg, s, step);
    case Commit(_) => TargetBatch(cfg, s, step);
    case Abort => TargetBatch(cfg, s, step);
    case Join => TargetJoin(cfg, s);
    case Diff(_) => TargetDiff(cfg, s, step);
    case Stamp(_) => TargetStamp(cfg, s, step);
    case _ =>
  }

  lemma InvStep<T>(cfg: Config<T>, s: State<T>, step: Step)
    requires Inv(cfg, s) && Enabled(cfg, s, step)
    ensures Inv(cfg, Exec(cfg, s, step))
  {
    SetsStep(cfg, s, step);
    ConservedStep(cfg, s, step);
    FilterStep(cfg, s, step);
    FilterOnlyStep(cfg, s, step);
    OrderedStep(cfg, s, step);
    TargetStep(cfg, s, step);
    if step.Handle? { WatermarkHandle(cfg, s, step); } else { WatermarkOther(cfg, s, step); }
  }

  /** The invariant holds in every state of every run. */
  lemma {:induction false} InvAlways<T(!new)>(cfg: Config<T>, steps: seq<Step>)
    requires Legal(cfg, steps)
    ensures Inv(cfg, After(cfg, steps))
    decreases |steps|
  {
    if steps == [] {
      assert cfg.stream[..0] == [];
    } else {
      var n := |steps| - 1;
      InvAlways(cfg, steps[..n]);
      InvStep(cfg, After(cfg, steps[..n]), steps[n]);
    }
  }

  // ---- An interrupted export ----

  lemma {:induction false} ImportKeeps<T>(
      store: Store<ItemKey, T>, msgs: seq<Message<ItemKey, T>>, valid: T -> bool, hash: T -> string, k: ItemKey)
    requires k in store && AllSets(msgs)
    ensures k in Import(store, msgs, valid, hash)
    decreases |msgs|
  {
    if msgs != [] {
      ImportKeeps(store, msgs[..|msgs| - 1], valid, hash, k);
    }
  }

  /**
   Whatever else happens in a run in which the producer fails part way: no key leaves the target, what the
   target gained came from a prefix of the stream, and the watermark stays where it was.  This
   holds in delete mode too, where the filter knows only part of the source.
   */
  lemma InterruptedExportHarmless<T(!new)>(cfg: Config<T>, steps: seq<Step>)
    requires Legal(cfg, steps) && After(cfg, steps).producer == Stopped(false)
    ensures var s := After(cfg, steps);
            && s.received <= |cfg.stream|
            && s.watermark == cfg.watermark
            && (forall k :: k in cfg.initial ==> k in s.target)
            && (s.target == cfg.initial || s.target == Import(cfg.initial, s.applied, cfg.valid, cfg.hash))
            && Handled(s.applied) <= Known(cfg.stream[..s.received])
            && (s.main.Waiting? || s.main.Failed?)
  {
    InvAlways(cfg, steps);
    var s := After(cfg, steps);
    forall k | k in cfg.initial ensures k in s.target {
      ImportKeeps(cfg.initial, s.applied, cfg.valid, cfg.hash, k);
    }
  }

  /** No run, failed or not, deletes anything before the producer and the subscriber both succeeded. */
  lemma DeletesOnlyAfterSuccess<T(!new)>(cfg: Config<T>, steps: seq<Step>, k: ItemKey)
    requires Legal(cfg, steps) && k in cfg.initial && k !in After(cfg, steps).target
    ensures var s := After(cfg, steps);
            && cfg.diff && s.producer == Stopped(true) && s.subscriber.Committed?
            && s.received == |cfg.stream| && Handled(s.applied) == Known(cfg.stream)
  {
    InvAlways(cfg, steps);
    var s := After(cfg, steps);
    ImportKeeps(cfg.initial, s.applied, cfg.valid, cfg.hash, k);
    assert cfg.stream[..|cfg.stream|] == cfg.stream;
    assert Handled(s.applied) + s.chan + InHand(s.producer) == Handled(s.applied) + s.chan;
  }

  // ---- Every run ends ----

  /** Steps left at most. */
  function Fuel<T>(cfg: Config<T>, s: State<T>): int {
    4 * (|cfg.stream| - s.received)
    + (match s.producer case Receiving => 1 case Holding(_) => 3 case Stopped(_) => 0)
    + |s.chan|
    + (if s.subscriber.Draining? then 1 else 0)
    + (match s.main case Waiting => 3 case Diffing => 2 case Stamping => 1 case Finished => 0 case Failed => 0)
  }

  lemma ProducerUsesFuel<T>(cfg: Config<T>, s: State<T>, step: Step)
    requires step.Receive? || step.ReceiveError? || step.EndOfStream? || step.Send?
    requires Enabled(cfg, s, step)
    ensures Fuel(cfg, Exec(cfg, s, step)) < Fuel(cfg, s)
  {
  }

  lemma StepsUseFuel<T>(cfg: Config<T>, s: State<T>, step: Step)
    requires Enabled(cfg, s, step)
    ensures Fuel(cfg, Exec(cfg, s, step)) < Fuel(cfg, s)
  {
    if step.Receive? || step.ReceiveError? || step.EndOfStream? || step.Send? {
      ProducerUsesFuel(cfg, s, step);
    } else if step.Join? || step.Diff? || step.Stamp? {
      MainUsesFuel(cfg, s, step);
    }
  }

  lemma MainUsesFuel<T>(cfg: Config<T>, s: State<T>, step: Step)
    requires (step.Join? || step.Diff? || step.Stamp?) && Enabled(cfg, s, step)
    ensures Fuel(cfg, Exec(cfg, s, step)) < Fuel(cfg, s)
  {
  }

  /** No run is longer than four steps per message, and five. */
  lemma {:induction false} RunsEnd<T(!new)>(cfg: Config<T>, steps: seq<Step>)
    requires Legal(cfg, steps)
    ensures |steps| + Fuel(cfg, After(cfg, steps)) <= Fuel(cfg, Init(cfg)) == 4 * |cfg.stream| + 5
    decreases |steps|
  {
    if steps != [] {
      var n := |steps| - 1;
      RunsEnd(cfg, steps[..n]);
      StepsUseFuel(cfg, After(cfg, steps[..n]), steps[n]);
    }
  }

  predicate Over<T>(s: State<T>) {
    s.main.Finished? || s.main.Failed?
  }

  /** The producer holds a message, the channel is full, and nobody will empty it. */
  predicate Stuck<T>(cfg: Config<T>, s: State<T>) {
    s.producer.Holding? && |s.chan| >= cfg.capacity && s.subscriber.Aborted?
  }

  /** A step a fault-free run would take from here. */
  function Proceed<T>(cfg: Config<T>, s: State<T>): Step {
    if s.producer.Receiving? then (if s.received < |cfg.stream| then Receive(true) else EndOfStream)
    else if s.producer.Holding? then (if |s.chan| < cfg.capacity then Send else Handle(ZERO))
    else if s.subscriber.Draining? then (if s.chan == [] then Commit(true) else Handle(ZERO))
    else if s.main.Waiting? then Join
    else if s.main.Diffing? then Diff(true)
    else Stamp(Stamped)
  }

  /**
   A run that is not over can go on without a further fault, with one exact exception: the
   subscriber's batch never began, and the export overran the channel it should have emptied.
   */
  lemma GoesOnUnlessStuck<T(!new)>(cfg: Config<T>, steps: seq<Step>)
    requires Legal(cfg, steps) && cfg.capacity > 0 && !Over(After(cfg, steps))
    ensures var s := After(cfg, steps);
            && (!Stuck(cfg, s) ==> Enabled(cfg, s, Proceed(cfg, s)) && !IsFault(Proceed(cfg, s)))
            && (Stuck(cfg, s) ==> forall step :: !Enabled(cfg, s, step))
  {
    InvAlways(cfg, steps);
  }

  /**
   So once the producer has failed, the run goes on until the subscriber has stopped and the sync
   has returned an error; if its batch began, the subscriber first takes everything out of the channel.
   */
  lemma InterruptedRunsToTheEnd<T(!new)>(cfg: Config<T>, steps: seq<Step>)
    requires Legal(cfg, steps) && cfg.capacity > 0 && After(cfg, steps).producer == Stopped(false)
    requires forall step :: Enabled(cfg, After(cfg, steps), step) ==> IsFault(step)
    ensures var s := After(cfg, steps);
            s.main.Failed? && !s.subscriber.Draining? && (s.subscriber.Committed? ==> s.chan == [])
  {
    InvAlways(cfg, steps);
    if !Over(After(cfg, steps)) {
      GoesOnUnlessStuck(cfg, steps);
    }
  }

  lemma LegalSnoc<T(!new)>(cfg: Config<T>, steps: seq<Step>, step: Step)
    requires Legal(cfg, steps) && Enabled(cfg, After(cfg, steps), step)
    ensures Legal(cfg, steps + [step]) && After(cfg, steps + [step]) == Exec(cfg, After(cfg, steps), step)
  {
    assert (steps + [step])[..|steps|] == steps;
  }

  /** A subscriber whose batch never began has handled nothing while the producer is still at work. */
  lemma {:induction false} AbortedHandledNothing<T(!new)>(cfg: Config<T>, steps: seq<Step>)
    requires Legal(cfg, steps)
    ensures var s := After(cfg, steps); s.subscriber.Aborted? && !s.producer.Stopped? ==> s.applied == []
    decreases |steps|
  {
    if steps != [] {
      var n := |steps| - 1;
      AbortedHandledNothing(cfg, steps[..n]);
      AbortedStep(cfg, After(cfg, steps[..n]), steps[n]);
    }
  }

  lemma AbortedStep<T>(cfg: Config<T>, s: State<T>, step: Step)
    requires (s.subscriber.Aborted? && !s.producer.Stopped? ==> s.applied == []) && Enabled(cfg, s, step)
    ensures var s' := Exec(cfg, s, step); s'.subscriber.Aborted? && !s'.producer.Stopped? ==> s'.applied == []
  {
  }

  lemma {:induction false} KnownGrows<T>(msgs: seq<Msg<T>>, n: nat)
    requires n <= |msgs|
    ensures |Known(msgs[..n])| <= |Known(msgs)|
    decreases |msgs|
  {
    if n < |msgs| {
      assert msgs[..|msgs| - 1][..n] == msgs[..n];
      KnownGrows(msgs[..|msgs| - 1], n);
    } else {
      assert msgs[..n] == msgs;
    }
  }

  /** Only an export with more messages of known kind than the channel holds can get stuck. */
  lemma StuckOverruns<T(!new)>(cfg: Config<T>, steps: seq<Step>)
    requires Legal(cfg, steps) && Stuck(cfg, After(cfg, steps))
    ensures |Known(cfg.stream)| > cfg.capacity
  {
    var s := After(cfg, steps);
    InvAlways(cfg, steps);
    AbortedHandledNothing(cfg, steps);
    KnownGrows(cfg.stream, s.received);
    assert |Handled(s.applied) + s.chan + InHand(s.producer)| == |s.chan| + 1;
  }

  /** The batch does not begin, and the producer goes through the first `n` messages. */
  lemma {:induction false} FillChannel<T(!new)>(cfg: Config<T>, n: nat) returns (steps: seq<Step>)
    requires n <= |cfg.stream| && |Known(cfg.stream[..n])| <= cfg.capacity
    ensures Legal(cfg, steps)
    ensures var s := After(cfg, steps);
            && s.producer.Receiving? && s.received == n && |s.chan| == |Known(cfg.stream[..n])|
            && s.subscriber.Aborted? && s.main.Waiting?
    decreases n
  {
    if n == 0 {
      assert cfg.stream[..0] == [];
      LegalSnoc(cfg, [], Abort);
      steps := [] + [Abort];
    } else {
      KnownNext(cfg.stream, n - 1);
      var before := FillChannel(cfg, n - 1);
      LegalSnoc(cfg, before, Receive(true));
      steps := before + [Receive(true)];
      if cfg.stream[n - 1].Item? {
        LegalSnoc(cfg, steps, Send);
        steps := steps + [Send];
      }
    }
  }

  lemma {:induction false} KnownReaches<T>(msgs: seq<Msg<T>>, c: nat) returns (n: nat)
    requires |Known(msgs)| > c
    ensures n < |msgs| && |Known(msgs[..n])| == c && msgs[n].Item?
    decreases |msgs|
  {
    var m := |msgs| - 1;
    if |Known(msgs[..m])| > c {
      n := KnownReaches(msgs[..m], c);
      assert msgs[..m][..n] == msgs[..n];
    } else {
      n := m;
    }
  }

  /** And any such export can. */
  lemma StuckReachable<T(!new)>(cfg: Config<T>) returns (steps: seq<Step>)
    requires |Known(cfg.stream)| > cfg.capacity
    ensures Legal(cfg, steps) && Stuck(cfg, After(cfg, steps)) && !Over(After(cfg, steps))
  {
    var n := KnownReaches(cfg.stream, cfg.capacity);
    var filled := FillChannel(cfg, n);
    LegalSnoc(cfg, filled, Receive(true));
    steps := filled + [Receive(true)];
  }

  /** Some run comes to a state that is not the end and has no step, faults included. */
  ghost predicate CanHang<T(!new)>(cfg: Config<T>) {
    exists steps :: Legal(cfg, steps) && !Over(After(cfg, steps)) && forall step :: !Enabled(cfg, After(cfg, steps), step)
  }

  /** A sync can hang if and only if its export has more messages of known kind than the channel holds. */
  lemma HangsIff<T(!new)>(cfg: Config<T>)
    requires cfg.capacity > 0
    ensures CanHang(cfg) <==> |Known(cfg.stream)| > cfg.capacity
  {
    if CanHang(cfg) {
      var steps :| Legal(cfg, steps) && !Over(After(cfg, steps)) && forall step :: !Enabled(cfg, After(cfg, steps), step);
      GoesOnUnlessStuck(cfg, steps);
      StuckOverruns(cfg, steps);
    }
    if |Known(cfg.stream)| > cfg.capacity {
      var steps := StuckReachable(cfg);
      GoesOnUnlessStuck(cfg, steps);
    }
  }

  // ---- Runs without faults ----

  ghost predicate FaultFree(steps: seq<Step>) {
    forall i :: 0 <= i < |steps| ==> !IsFault(steps[i])
  }

  /** Neither side has failed, nor has the sync. */
  predicate Healthy<T>(s: State<T>) {
    s.producer != Stopped(false) && !s.subscriber.Aborted? && !s.main.Failed?
  }

  lemma {:induction false} FaultFreeHealthy<T(!new)>(cfg: Config<T>, steps: seq<Step>)
    requires Legal(cfg, steps) && FaultFree(steps)
    ensures Healthy(After(cfg, steps)) && !After(cfg, steps).lossy
    decreases |steps|
  {
    if steps != [] {
      var n := |steps| - 1;
      FaultFreeHealthy(cfg, steps[..n]);
      HealthyStep(cfg, After(cfg, steps[..n]), steps[n]);
    }
  }

  lemma HealthyStep<T>(cfg: Config<T>, s: State<T>, step: Step)
    requires Healthy(s) && Enabled(cfg, s, step) && !IsFault(step)
    ensures Healthy(Exec(cfg, s, step)) && Exec(cfg, s, step).lossy == s.lossy
    ensures s.received == |cfg.stream| ==>
              Exec(cfg, s, step).inserted == s.inserted && Exec(cfg, s, step).received == s.received
  {
  }

  /** A run without faults that has no fault-free step left has finished, with every key in the filter. */
  lemma FaultFreeFinishes<T(!new)>(cfg: Config<T>, steps: seq<Step>)
    requires Legal(cfg, steps) && FaultFree(steps) && cfg.capacity > 0
    requires forall step :: Enabled(cfg, After(cfg, steps), step) ==> IsFault(step)
    ensures After(cfg, steps).main.Finished? && !After(cfg, steps).lossy
  {
    FaultFreeHealthy(cfg, steps);
    if !Over(After(cfg, steps)) {
      GoesOnUnlessStuck(cfg, steps);
    }
  }

  /** Any run in which nothing has failed so far can be carried on to a finished sync. */
  lemma {:induction false} CarryOn<T(!new)>(cfg: Config<T>, steps: seq<Step>) returns (whole: seq<Step>)
    requires Legal(cfg, steps) && Healthy(After(cfg, steps)) && cfg.capacity > 0
    ensures Legal(cfg, whole) && After(cfg, whole).main.Finished? && After(cfg, whole).lossy == After(cfg, steps).lossy
    ensures After(cfg, steps).received == |cfg.stream| ==> After(cfg, whole).inserted == After(cfg, steps).inserted
    ensures FaultFree(steps) ==> FaultFree(whole)
    decreases 4 * |cfg.stream| + 5 - |steps|
  {
    whole := steps;
    if !After(cfg, steps).main.Finished? {
      GoesOnUnlessStuck(cfg, steps);
      var step := Proceed(cfg, After(cfg, steps));
      LegalSnoc(cfg, steps, step);
      HealthyStep(cfg, After(cfg, steps), step);
      InvAlways(cfg, steps + [step]);
      RunsEnd(cfg, steps + [step]);
      whole := CarryOn(cfg, steps + [step]);
    }
  }

  // ---- A completed sync ----

  /** The filter answers yes for every key it took, as long as it took every key it was given. */
  ghost predicate NoFalseNegatives<T>(cfg: Config<T>) {
    forall keys, k :: k in keys ==> cfg.lookup(keys, false, k)
  }

  /** The stream's last valid word on an item. */
  function Exported<T>(stream: seq<Msg<T>>, k: ItemKey, valid: T -> bool): Option<T> {
    if stream == [] then None
    else
      var n := |stream| - 1;
      if stream[n].Item? && stream[n].key == k && valid(stream[n].body) then Some(stream[n].body)
      else Exported(stream[..n], k, valid)
  }

  lemma {:induction false} ExportedKnown<T>(stream: seq<Msg<T>>, k: ItemKey, valid: T -> bool)
    ensures Exported(stream, k, valid) == Exported(Known(stream), k, valid)
    decreases |stream|
  {
    if stream != [] {
      var n := |stream| - 1;
      ExportedKnown(stream[..n], k, valid);
      if stream[n].Item? {
        assert Known(stream)[..|Known(stream)| - 1] == Known(stream[..n]);
      } else {
        assert Known(stream) == Known(stream[..n]);
      }
    }
  }

  lemma {:induction false} HandledLastWord<T>(applied: seq<Message<ItemKey, T>>, k: ItemKey, valid: T -> bool)
    requires AllSets(applied)
    ensures var exported := Exported(Handled(applied), k, valid);
            LastWord(applied, k, valid) == if exported.Some? then Some(exported) else None
    decreases |applied|
  {
    if applied != [] {
      var n := |applied| - 1;
      HandledLastWord(applied[..n], k, valid);
      assert Handled(applied)[..|Handled(applied)| - 1] == Handled(applied[..n]);
    }
  }

  lemma {:induction false} ExportedSomewhere<T>(stream: seq<Msg<T>>, k: ItemKey, valid: T -> bool) returns (i: nat)
    requires Exported(stream, k, valid).Some?
    ensures i < |stream| && stream[i].Item? && stream[i].key == k
    decreases |stream|
  {
    var n := |stream| - 1;
    if stream[n].Item? && stream[n].key == k && valid(stream[n].body) {
      i := n;
    } else {
      i := ExportedSomewhere(stream[..n], k, valid);
    }
  }

  /** What the target holds of an item when the handlers are done, before any delete. */
  lemma BaseContent<T(!new)>(cfg: Config<T>, steps: seq<Step>, k: ItemKey)
    requires Legal(cfg, steps) && Sound(cfg.initial, cfg.hash)
    requires After(cfg, steps).producer == Stopped(true) && After(cfg, steps).subscriber.Committed?
    ensures Content(Base(cfg, After(cfg, steps)), k)
            == if Exported(cfg.stream, k, cfg.valid).Some? then Exported(cfg.stream, k, cfg.valid)
               else Content(cfg.initial, k)
  {
    InvAlways(cfg, steps);
    var s := After(cfg, steps);
    assert cfg.stream[..|cfg.stream|] == cfg.stream;
    assert Handled(s.applied) == Known(cfg.stream);
    ImportContent(cfg.initial, s.applied, cfg.valid, cfg.hash, k);
    HandledLastWord(s.applied, k, cfg.valid);
    ExportedKnown(cfg.stream, k, cfg.valid);
  }

  /**
   A finished delete-mode sync converges.  If the filter took every key, each exported item the handlers
   accept is in the target with the exported content, no item named in the export was deleted, and an item that is
   in the target without being named in the export is one the filter wrongly claims to know or one whose delete handler
   refused it.
   */
  lemma DiffSyncConverges<T(!new)>(cfg: Config<T>, steps: seq<Step>, k: ItemKey)
    requires Legal(cfg, steps) && Sound(cfg.initial, cfg.hash) && NoFalseNegatives(cfg)
    requires cfg.diff && After(cfg, steps).main.Finished? && !After(cfg, steps).lossy
    ensures var s := After(cfg, steps);
            var named := exists i :: 0 <= i < |cfg.stream| && cfg.stream[i].Item? && cfg.stream[i].key == k;
            && (Exported(cfg.stream, k, cfg.valid).Some? ==> Content(s.target, k) == Exported(cfg.stream, k, cfg.valid))
            && (named && k in cfg.initial ==> k in s.target)
            && (!named ==> Content(s.target, k)
                           == if k in cfg.initial && (cfg.lookup(s.inserted, false, FilterKey(k)) || !cfg.valid(cfg.initial[k].body))
                              then Content(cfg.initial, k) else None)
  {
    InvAlways(cfg, steps);
    BaseContent(cfg, steps, k);
    var s := After(cfg, steps);
    if Exported(cfg.stream, k, cfg.valid).Some? {
      var i := ExportedSomewhere(cfg.stream, k, cfg.valid);
    }
    if k in cfg.initial {
      ImportKeeps(cfg.initial, s.applied, cfg.valid, cfg.hash, k);
    }
  }

  /** If nothing fails, every exported item ends up in the target as exported, and no exported item is deleted. */
  lemma FaultFreeConverges<T(!new)>(cfg: Config<T>, steps: seq<Step>, k: ItemKey)
    requires Sound(cfg.initial, cfg.hash) && NoFalseNegatives(cfg) && cfg.capacity > 0
    requires Legal(cfg, steps) && FaultFree(steps)
    requires forall step :: Enabled(cfg, After(cfg, steps), step) ==> IsFault(step)
    ensures Exported(cfg.stream, k, cfg.valid).Some? ==>
              Content(After(cfg, steps).target, k) == Exported(cfg.stream, k, cfg.valid)
    ensures (exists i :: 0 <= i < |cfg.stream| && cfg.stream[i].Item? && cfg.stream[i].key == k) && k in cfg.initial ==>
              k in After(cfg, steps).target
  {
    FaultFreeFinishes(cfg, steps);
    if cfg.diff {
      DiffSyncConverges(cfg, steps, k);
    } else {
      FullSyncConverges(cfg, steps, k);
    }
  }

  /** The export names an item that goes by the key's name. */
  ghost predicate NamedLike<T>(cfg: Config<T>, k: ItemKey) {
    exists i :: 0 <= i < |cfg.stream| && KeyAt(cfg, i, FilterKey(k))
  }

  /** The export names the item itself, or one that is confusable with it. */
  ghost predicate NamedOrConfused<T>(cfg: Config<T>, k: ItemKey) {
    exists i :: 0 <= i < |cfg.stream| && ItemAt(cfg, i, k)
  }

  ghost predicate ItemAt<T>(cfg: Config<T>, i: nat, k: ItemKey)
    requires i < |cfg.stream|
  {
    cfg.stream[i].Item? && (cfg.stream[i].key == k || Confusable(cfg.stream[i].key, k))
  }

  lemma InsertedIff<T(!new)>(cfg: Config<T>, steps: seq<Step>, k: ItemKey)
    requires Legal(cfg, steps) && cfg.diff && After(cfg, steps).producer == Stopped(true) && !After(cfg, steps).lossy
    ensures FilterKey(k) in After(cfg, steps).inserted <==> NamedLike(cfg, k)
  {
    InvAlways(cfg, steps);
    var s := After(cfg, steps);
    if FilterKey(k) in s.inserted {
      var i :| 0 <= i < s.received && KeyAt(cfg, i, FilterKey(k));
    }
  }

  /**
   A survivor the export does not name is a false positive of the filter, its name never having been
   put in, if and only if the export names no item confusable with it.
   */
  lemma SurvivorInsertedIff<T(!new)>(cfg: Config<T>, steps: seq<Step>, k: ItemKey)
    requires Legal(cfg, steps) && cfg.diff && After(cfg, steps).producer == Stopped(true) && !After(cfg, steps).lossy
    requires PlainNames(k) && forall i :: 0 <= i < |cfg.stream| && cfg.stream[i].Item? ==> PlainNames(cfg.stream[i].key)
    ensures FilterKey(k) in After(cfg, steps).inserted <==> NamedOrConfused(cfg, k)
  {
    InsertedIff(cfg, steps, k);
    forall i | 0 <= i < |cfg.stream| ensures KeyAt(cfg, i, FilterKey(k)) <==> ItemAt(cfg, i, k) {
      if cfg.stream[i].Item? { FilterKeyEqualIff(cfg.stream[i].key, k); }
    }
    if NamedLike(cfg, k) {
      var i :| 0 <= i < |cfg.stream| && KeyAt(cfg, i, FilterKey(k));
      assert ItemAt(cfg, i, k);
    }
    if NamedOrConfused(cfg, k) {
      var i :| 0 <= i < |cfg.stream| && ItemAt(cfg, i, k);
      assert KeyAt(cfg, i, FilterKey(k));
    }
  }

  /**
   The failing case: an object whose id spells out an exported relation stays in the target of every
   delete-mode sync that took every key, though the export does not name it, because its name was put in.
   */
  lemma HashCollisionSurvives<T(!new)>(
      cfg: Config<T>, steps: seq<Step>, n: nat, t: string, i: string, rel: string, st: string, j: string)
    requires Legal(cfg, steps) && NoFalseNegatives(cfg)
    requires cfg.diff && After(cfg, steps).main.Finished? && !After(cfg, steps).lossy
    requires n < |cfg.stream| && cfg.stream[n].Item? && cfg.stream[n].key == RelationItem(RelationId(t, i, rel, st, j, ""))
    requires ObjectItem(t, i + "#" + rel + "@" + st + ":" + j) in cfg.initial
    ensures var k := ObjectItem(t, i + "#" + rel + "@" + st + ":" + j);
            FilterKey(k) in After(cfg, steps).inserted && k in After(cfg, steps).target
  {
    var k := ObjectItem(t, i + "#" + rel + "@" + st + ":" + j);
    var s := After(cfg, steps);
    InvAlways(cfg, steps);
    HashCollision(t, i, rel, st, j);
    assert KeyAt(cfg, n, FilterKey(k));
    InsertedIff(cfg, steps, k);
    ImportKeeps(cfg.initial, s.applied, cfg.valid, cfg.hash, k);
  }

  /** With a filter of any quality, an exported item the handlers accept is lost exactly when the filter denies it. */
  lemma ExportedLostIff<T(!new)>(cfg: Config<T>, steps: seq<Step>, k: ItemKey)
    requires Legal(cfg, steps) && Sound(cfg.initial, cfg.hash)
    requires cfg.diff && After(cfg, steps).main.Finished? && Exported(cfg.stream, k, cfg.valid).Some?
    ensures var s := After(cfg, steps);
            k !in s.target <==> !cfg.lookup(s.inserted, s.lossy, FilterKey(k))
  {
    InvAlways(cfg, steps);
    BaseContent(cfg, steps, k);
    ExportedValid(cfg.stream, k, cfg.valid);
  }

  lemma {:induction false} ExportedValid<T>(stream: seq<Msg<T>>, k: ItemKey, valid: T -> bool)
    requires Exported(stream, k, valid).Some?
    ensures valid(Exported(stream, k, valid).value)
    decreases |stream|
  {
    var n := |stream| - 1;
    if !(stream[n].Item? && stream[n].key == k && valid(stream[n].body)) {
      ExportedValid(stream[..n], k, valid);
    }
  }

  /** A finished sync that deletes nothing leaves exactly the old items overlaid with the exported ones. */
  lemma FullSyncConverges<T(!new)>(cfg: Config<T>, steps: seq<Step>, k: ItemKey)
    requires Legal(cfg, steps) && Sound(cfg.initial, cfg.hash)
    requires !cfg.diff && After(cfg, steps).main.Finished?
    ensures Content(After(cfg, steps).target, k)
            == if Exported(cfg.stream, k, cfg.valid).Some? then Exported(cfg.stream, k, cfg.valid)
               else Content(cfg.initial, k)
  {
    InvAlways(cfg, steps);
    BaseContent(cfg, steps, k);
  }

  /** An export of one item, whose key the filter does not take and later denies: the item is gone in the end. */
  lemma ExportedLost<T(!new)>(cfg: Config<T>, k: ItemKey, body: T) returns (steps: seq<Step>)
    requires |cfg.stream| == 1 && cfg.stream[0] == Item(k, body)
    requires cfg.diff && cfg.capacity > 0 && cfg.valid(body) && Sound(cfg.initial, cfg.hash)
    requires !cfg.lookup([], true, FilterKey(k))
    ensures Legal(cfg, steps) && After(cfg, steps).main.Finished?
    ensures Exported(cfg.stream, k, cfg.valid) == Some(body) && k !in After(cfg, steps).target
  {
    var refused := RefusedKey(cfg, k, body);
    steps := CarryOn(cfg, refused);
    ExportedLostIff(cfg, steps, k);
  }

  lemma RefusedKey<T(!new)>(cfg: Config<T>, k: ItemKey, body: T) returns (steps: seq<Step>)
    requires |cfg.stream| == 1 && cfg.stream[0] == Item(k, body) && cfg.diff
    ensures Legal(cfg, steps)
    ensures var s := After(cfg, steps); Healthy(s) && s.received == 1 && s.inserted == [] && s.lossy
  {
    var init, step := Init(cfg), Receive(false);
    assert Enabled(cfg, init, step);
    assert Exec(cfg, init, step) == init.(received := 1, producer := Holding(Item(k, body)), lossy := true);
    assert Legal(cfg, []) && After(cfg, []) == init;
    LegalSnoc(cfg, [], step);
    steps := [] + [step];
  }

  /** The watermark moves forward only when a sync finishes, and then past every item it applied. */
  lemma WatermarkMoves<T(!new)>(cfg: Config<T>, steps: seq<Step>)
    requires Legal(cfg, steps)
    ensures var s := After(cfg, steps);
            && (s.watermark != cfg.watermark ==> s.main.Finished? || (s.main.Failed? && s.watermark == ZERO))
            && (s.main.Finished? ==>
                  && AtMost(cfg.watermark, s.watermark)
                  && forall i :: 0 <= i < |s.applied| && cfg.valid(s.applied[i].record.body) ==>
                       AtMost(s.applied[i].now, s.watermark))
  {
    InvAlways(cfg, steps);
  }

  /** Where the watermark stands, given whether a stamp was truncated. */
  ghost predicate MarkOk<T>(cfg: Config<T>, s: State<T>, truncated: bool) {
    if truncated then s.main.Failed? && s.watermark == ZERO
    else s.watermark == if s.main.Finished? then MaxTS(cfg.watermark, s.ts) else cfg.watermark
  }

  lemma MarkStep<T>(cfg: Config<T>, s: State<T>, step: Step, truncated: bool)
    requires MarkOk(cfg, s, truncated) && Ordered(cfg, s) && Enabled(cfg, s, step)
    ensures MarkOk(cfg, Exec(cfg, s, step), truncated || step == Stamp(Truncated))
  {
  }

  /** The time of a sync is no time at all, or that at which it handled an item it accepted. */
  ghost predicate TimeOk<T>(cfg: Config<T>, s: State<T>) {
    s.ts == ZERO || exists i :: 0 <= i < |s.applied| && AppliedAt(cfg, s.applied, i, s.ts)
  }

  ghost predicate AppliedAt<T>(cfg: Config<T>, applied: seq<Message<ItemKey, T>>, i: nat, ts: Timestamp)
    requires i < |applied|
  {
    cfg.valid(applied[i].record.body) && applied[i].now == ts
  }

  lemma TimeHandle<T>(cfg: Config<T>, s: State<T>, step: Step)
    requires step.Handle? && TimeOk(cfg, s) && Enabled(cfg, s, step)
    ensures TimeOk(cfg, Exec(cfg, s, step))
  {
    var s' := Exec(cfg, s, step);
    if s.chan[0].Item? {
      var n := |s.applied|;
      assert s'.applied[..n] == s.applied && s'.applied[n].now == step.now && s'.applied[n].record.body == s.chan[0].body;
      if s'.ts == s.ts != ZERO {
        var i :| 0 <= i < n && AppliedAt(cfg, s.applied, i, s.ts);
        assert s'.applied[i] == s.applied[i];
        assert AppliedAt(cfg, s'.applied, i, s'.ts);
      } else if s'.ts != s.ts {
        assert AppliedAt(cfg, s'.applied, n, s'.ts);
      }
    }
  }

  lemma TimeOther<T>(cfg: Config<T>, s: State<T>, step: Step)
    requires !step.Handle? && TimeOk(cfg, s) && Enabled(cfg, s, step)
    ensures TimeOk(cfg, Exec(cfg, s, step))
  {
    assert Exec(cfg, s, step).applied == s.applied && Exec(cfg, s, step).ts == s.ts;
  }

  lemma {:induction false} TimeAlways<T(!new)>(cfg: Config<T>, steps: seq<Step>)
    requires Legal(cfg, steps)
    ensures TimeOk(cfg, After(cfg, steps))
    decreases |steps|
  {
    if steps != [] {
      var n := |steps| - 1;
      TimeAlways(cfg, steps[..n]);
      var s := After(cfg, steps[..n]);
      if steps[n].Handle? { TimeHandle(cfg, s, steps[n]); } else { TimeOther(cfg, s, steps[n]); }
    }
  }

  lemma AppliedStep<T>(cfg: Config<T>, s: State<T>, step: Step)
    requires Enabled(cfg, s, step)
    ensures var s' := Exec(cfg, s, step);
            || s'.applied == s.applied
            || (step.Handle? && |s'.applied| == |s.applied| + 1 && s'.applied[..|s.applied|] == s.applied
                && s'.applied[|s.applied|].now == step.now)
  {
  }

  /** Items are handled at the times of the run's own handling steps. */
  lemma {:induction false} HandledAt<T(!new)>(cfg: Config<T>, steps: seq<Step>, i: nat) returns (j: nat)
    requires Legal(cfg, steps) && i < |After(cfg, steps).applied|
    ensures j < |steps| && steps[j] == Handle(After(cfg, steps).applied[i].now)
    decreases |steps|
  {
    var n := |steps| - 1;
    var s := After(cfg, steps[..n]);
    AppliedStep(cfg, s, steps[n]);
    if i < |s.applied| {
      assert After(cfg, steps).applied[i] == s.applied[i];
      j := HandledAt(cfg, steps[..n], i);
    } else {
      j := n;
    }
  }

  /**
   The watermark of a finished sync is exact: the old one, or the zero time if that is later, or the local time at
   which the run handled an item it accepted.  Without such an item it is one of the first two.
   */
  lemma WatermarkExact<T(!new)>(cfg: Config<T>, steps: seq<Step>)
    requires Legal(cfg, steps) && After(cfg, steps).main.Finished?
    ensures var s := After(cfg, steps);
            || s.watermark == MaxTS(cfg.watermark, ZERO)
            || s.watermark == cfg.watermark
            || exists i :: 0 <= i < |s.applied| && AppliedAt(cfg, s.applied, i, s.watermark) && Handle(s.watermark) in steps
    ensures var s := After(cfg, steps);
            (forall i :: 0 <= i < |s.applied| ==> !cfg.valid(s.applied[i].record.body)) ==>
            s.watermark == MaxTS(cfg.watermark, ZERO)
  {
    InvAlways(cfg, steps);
    TimeAlways(cfg, steps);
    var s := After(cfg, steps);
    if s.ts != ZERO {
      var i :| 0 <= i < |s.applied| && AppliedAt(cfg, s.applied, i, s.ts);
      var j := HandledAt(cfg, steps, i);
      assert Handle(s.ts) in steps;
    }
  }

  lemma OrderedAlways<T(!new)>(cfg: Config<T>, steps: seq<Step>)
    requires Legal(cfg, steps)
    ensures Ordered(cfg, After(cfg, steps))
  {
    InvAlways(cfg, steps);
  }

  lemma InLast(steps: seq<Step>, step: Step)
    requires steps != []
    ensures step in steps <==> step in steps[..|steps| - 1] || steps[|steps| - 1] == step
  {
    assert steps == steps[..|steps| - 1] + [steps[|steps| - 1]];
  }

  lemma {:induction false} TruncatedEnds<T(!new)>(cfg: Config<T>, steps: seq<Step>)
    requires Legal(cfg, steps)
    ensures MarkOk(cfg, After(cfg, steps), Stamp(Truncated) in steps)
    decreases |steps|
  {
    if steps != [] {
      var n := |steps| - 1;
      TruncatedEnds(cfg, steps[..n]);
      InLast(steps, Stamp(Truncated));
      OrderedAlways(cfg, steps[..n]);
      MarkStep(cfg, After(cfg, steps[..n]), steps[n], Stamp(Truncated) in steps[..n]);
    }
  }

  /** It goes back exactly when writing its file broke off half way, and it was past the zero time. */
  lemma WatermarkLostIff<T(!new)>(cfg: Config<T>, steps: seq<Step>)
    requires Legal(cfg, steps)
    ensures !AtMost(cfg.watermark, After(cfg, steps).watermark)
            <==> Stamp(Truncated) in steps && !AtMost(cfg.watermark, ZERO)
  {
    TruncatedEnds(cfg, steps);
  }
}

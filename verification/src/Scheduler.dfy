/**
 The edge plugin's sync scheduler (daemon/authorizer/plugins/edge/plugin.go).

 Each turn of the scheduler handles one event, a tick or an on-demand request, and then starts a
 task unless it reads the `running` flag as set.  The flag is set and cleared by the task
 goroutines at moments of their own, so what a turn reads of it is left open.
 */
module Scheduler {
  import opened Wrappers

  /** The bits of a `SyncMode`; a caller may set ones that have no meaning. */
  datatype Bit = Full | Diff | Watermark | Manifest | Other(position: nat)

  type SyncMode = set<Bit>

  const UNKNOWN: SyncMode := {}

  const CYCLES: int := 4

  function Union(modes: seq<SyncMode>): SyncMode {
    set i, b | 0 <= i < |modes| && b in modes[i] :: b
  }

  /** `fold` */
  method Fold(modes: seq<SyncMode>) returns (r: SyncMode)
    ensures r == Union(modes)
  {
    r := UNKNOWN;
    for i := 0 to |modes|
      invariant r == Union(modes[..i])
    {
      r := r + modes[i];
      assert forall j :: 0 <= j < i ==> modes[..i + 1][j] == modes[..i][j];
      assert modes[..i + 1][i] == modes[i];
    }
    assert modes[..|modes|] == modes;
  }

  datatype Event = Tick | Demand(mode: SyncMode)

  /** One turn: the event it handles, and whether it reads a task as running. */
  datatype Turn = Turn(event: Event, busy: bool)

  datatype State = State(cycle: int, intervalMode: SyncMode, pending: SyncMode)

  const INIT := State(CYCLES, UNKNOWN, UNKNOWN)

  function Handle(s: State, event: Event): State {
    match event
    case Tick =>
      if s.cycle % CYCLES == 0 then s.(intervalMode := {Diff}, cycle := 1)
      else s.(intervalMode := {Watermark}, cycle := s.cycle + 1)
    case Demand(mode) => s.(pending := s.pending + mode)
  }

  /** The mode the turn starts a task with, if it starts one. */
  function Dispatched(s: State, turn: Turn): Option<SyncMode> {
    var h := Handle(s, turn.event);
    if turn.busy then None
    else if h.pending != UNKNOWN then Some(h.pending)
    else Some(h.intervalMode)
  }

  function Next(s: State, turn: Turn): State {
    var h := Handle(s, turn.event);
    if turn.busy then h else h.(pending := UNKNOWN)
  }

  /** The state before turn `n`. */
  function At(turns: seq<Turn>, n: nat): State
    requires n <= |turns|
  {
    if n == 0 then INIT else Next(At(turns, n - 1), turns[n - 1])
  }

  /**
   No request is lost: from the turn that took it in, all its modes are still pending, or one task was started
   with all of them.
   */
  lemma {:induction false} RequestPendingOrDispatched(turns: seq<Turn>, i: nat, n: nat)
    requires i < n <= |turns| && turns[i].event.Demand? && turns[i].event.mode != UNKNOWN
    ensures var mode := turns[i].event.mode;
            || mode <= At(turns, n).pending
            || exists j :: i <= j < n && StartedWith(turns, j, mode)
    decreases n
  {
    var mode := turns[i].event.mode;
    if i < n - 1 {
      RequestPendingOrDispatched(turns, i, n - 1);
    }
    var h := Handle(At(turns, n - 1), turns[n - 1].event);
    if mode <= h.pending && !turns[n - 1].busy {
      assert StartedWith(turns, n - 1, mode);
    }
  }

  ghost predicate StartedWith(turns: seq<Turn>, j: nat, mode: SyncMode)
    requires j < |turns|
  {
    var d := Dispatched(At(turns, j), turns[j]);
    d.Some? && mode <= d.value
  }

  /** Nothing is started that was neither asked for nor due: the modes of a task are pending or the interval's. */
  lemma {:induction false} PendingWasRequested(turns: seq<Turn>, n: nat, bound: SyncMode)
    requires n <= |turns|
    requires forall i :: 0 <= i < n && turns[i].event.Demand? ==> turns[i].event.mode <= bound
    ensures At(turns, n).pending <= bound
    decreases n
  {
    if n > 0 {
      PendingWasRequested(turns, n - 1, bound);
    }
  }

  /** A request made in turn `i` asks for the bit, and no task was started from there up to turn `n`. */
  ghost predicate Waits(turns: seq<Turn>, i: nat, n: nat, b: Bit)
    requires i < |turns| && n <= |turns|
  {
    turns[i].event.Demand? && b in turns[i].event.mode && forall j :: i <= j < n ==> turns[j].busy
  }

  /** What is pending, exactly: what some request asked for, with no task started since. */
  lemma {:induction false} PendingIff(turns: seq<Turn>, n: nat, b: Bit)
    requires n <= |turns|
    ensures b in At(turns, n).pending <==> exists i :: 0 <= i < n && Waits(turns, i, n, b)
    decreases n
  {
    if n > 0 {
      var m := n - 1;
      PendingIff(turns, m, b);
      if b in At(turns, m).pending && turns[m].busy {
        var i :| 0 <= i < m && Waits(turns, i, m, b);
        assert Waits(turns, i, n, b);
      }
      if turns[m].event.Demand? && b in turns[m].event.mode && turns[m].busy {
        assert Waits(turns, m, n, b);
      }
      if i :| 0 <= i < n && Waits(turns, i, n, b) {
        assert turns[m].busy;
        assert i < m ==> Waits(turns, i, m, b);
      }
    }
  }

  /** Some request up to turn `n`, with no task started since, asked for the bit. */
  ghost predicate Asked(turns: seq<Turn>, n: nat, b: Bit)
    requires n < |turns|
  {
    exists i :: 0 <= i <= n && Waits(turns, i, n, b)
  }

  lemma AskedIff(turns: seq<Turn>, n: nat, b: Bit)
    requires n < |turns|
    ensures b in Handle(At(turns, n), turns[n].event).pending <==> Asked(turns, n, b)
  {
    PendingIff(turns, n, b);
    var here := turns[n].event.Demand? && b in turns[n].event.mode;
    assert here <==> Waits(turns, n, n, b);
    assert b in Handle(At(turns, n), turns[n].event).pending <==> here || b in At(turns, n).pending;
    if b in At(turns, n).pending {
      var i :| 0 <= i < n && Waits(turns, i, n, b);
    }
    if Asked(turns, n, b) {
      var i :| 0 <= i <= n && Waits(turns, i, n, b);
      assert i == n || i < n;
    }
  }

  /**
   What a turn starts, exactly: nothing when it reads a task as running; else a task with all that
   was asked for; and if nothing was, with what the last tick was given.
   */
  lemma DispatchedIff(turns: seq<Turn>, n: nat, b: Bit)
    requires n < |turns|
    ensures var d := Dispatched(At(turns, n), turns[n]);
            && (d.None? <==> turns[n].busy)
            && (d.Some? && (exists c :: Asked(turns, n, c)) ==> (b in d.value <==> Asked(turns, n, b)))
            && (d.Some? && (forall c :: !Asked(turns, n, c)) ==> d.value == At(turns, n + 1).intervalMode)
  {
    var h := Handle(At(turns, n), turns[n].event);
    AskedIff(turns, n, b);
    if h.pending != UNKNOWN {
      var c :| c in h.pending;
      AskedIff(turns, n, c);
    } else {
      forall c ensures !Asked(turns, n, c) { AskedIff(turns, n, c); }
    }
  }

  // ---- Ticks ----

  function Ticks(turns: seq<Turn>, n: nat): nat
    requires n <= |turns|
  {
    if n == 0 then 0 else Ticks(turns, n - 1) + (if turns[n - 1].event.Tick? then 1 else 0)
  }

  lemma {:induction false} CycleCountsTicks(turns: seq<Turn>, n: nat)
    requires n <= |turns|
    ensures var t := Ticks(turns, n);
            At(turns, n).cycle == if t == 0 then CYCLES else (t - 1) % CYCLES + 1
    decreases n
  {
    if n > 0 {
      CycleCountsTicks(turns, n - 1);
    }
  }

  /** Of any four ticks in a row exactly one is given the delete-mode sync, beginning with the first tick. */
  lemma EveryFourthTickDiffs(turns: seq<Turn>, n: nat)
    requires n < |turns| && turns[n].event.Tick?
    ensures At(turns, n + 1).intervalMode == if Ticks(turns, n) % 4 == 0 then {Diff} else {Watermark}
  {
    CycleCountsTicks(turns, n);
  }

  /**
   The delete-mode sync a tick is given is started in that turn exactly when no task is running and
   no request is pending, or the pending requests ask for one themselves.
   */
  lemma TickDiffStartedIff(turns: seq<Turn>, n: nat)
    requires n < |turns| && turns[n].event.Tick? && Ticks(turns, n) % 4 == 0
    ensures StartedWith(turns, n, {Diff})
            <==> !turns[n].busy && (At(turns, n).pending == UNKNOWN || Diff in At(turns, n).pending)
  {
    CycleCountsTicks(turns, n);
  }

  // ---- What a task executes ----

  /** The options of one `datasync` run. */
  datatype SyncRun = SyncRun(manifest: bool, full: bool, diff: bool, watermark: bool)

  /** `task` */
  method Task(mode: SyncMode) returns (runs: seq<SyncRun>)
    ensures runs == RunsOf(mode)
  {
    runs := [];
    if mode == UNKNOWN {
      return [SyncRun(true, true, false, false)];
    }
    if Watermark in mode {
      runs := runs + [SyncRun(true, false, false, true)];
    }
    if Diff in mode {
      runs := runs + [SyncRun(true, false, true, false)];
      return;
    }
    if Full in mode {
      runs := runs + [SyncRun(true, true, false, false)];
      return;
    }
    if Manifest in mode && Watermark !in mode {
      runs := runs + [SyncRun(true, false, false, false)];
      return;
    }
  }

  function RunsOf(mode: SyncMode): seq<SyncRun> {
    if mode == UNKNOWN then [SyncRun(true, true, false, false)] else
    (if Watermark in mode then [SyncRun(true, false, false, true)] else [])
    + (if Diff in mode then [SyncRun(true, false, true, false)]
       else if Full in mode then [SyncRun(true, true, false, false)]
       else if Manifest in mode && Watermark !in mode then [SyncRun(true, false, false, false)]
       else [])
  }

  /** A delete-mode run does what a full one does, and every run that brings the manifest along does that. */
  predicate CarriesOut(run: SyncRun, b: Bit) {
    match b
    case Watermark => run.watermark
    case Diff => run.diff
    case Full => run.full || run.diff
    case Manifest => run.manifest
    case Other(_) => false
  }

  /** Every meaningful mode a task was started with is carried out by one of its runs. */
  lemma TaskCoversModes(mode: SyncMode, b: Bit) returns (k: nat)
    requires b in mode && !b.Other?
    ensures k < |RunsOf(mode)| && CarriesOut(RunsOf(mode)[k], b)
  {
    k := if b == Watermark || b == Manifest then 0 else |RunsOf(mode)| - 1;
  }

  /**
   No run combines the watermark with the delete pass, which would delete everything that had not
   changed since the watermark; and all of them bring the manifest along.
   */
  lemma RunsNeverMix(mode: SyncMode, k: nat)
    requires k < |RunsOf(mode)|
    ensures var run := RunsOf(mode)[k]; run.manifest && !(run.watermark && run.diff)
  {
  }

  /** A task runs nothing that was not in its mode; with no mode at all it runs one full sync. */
  lemma RunsOnlyAsked(mode: SyncMode, k: nat)
    requires k < |RunsOf(mode)|
    ensures var run := RunsOf(mode)[k];
            && (run.diff ==> Diff in mode)
            && (run.watermark ==> Watermark in mode)
            && (run.full ==> Full in mode || mode == UNKNOWN)
            && (!run.diff && !run.watermark && !run.full ==> Manifest in mode)
    ensures mode == UNKNOWN ==> |RunsOf(mode)| == 1 && RunsOf(mode)[0] == SyncRun(true, true, false, false)
    ensures |RunsOf(mode)| <= 2
  {
  }

  ghost predicate Served(turns: seq<Turn>, j: nat, b: Bit)
    requires j < |turns|
  {
    var d := Dispatched(At(turns, j), turns[j]);
    d.Some? && exists k :: 0 <= k < |RunsOf(d.value)| && CarriesOut(RunsOf(d.value)[k], b)
  }

  /** From the request to the runs: whatever was asked for is pending, or a task since then carries it out. */
  lemma RequestServed(turns: seq<Turn>, i: nat, n: nat, b: Bit)
    requires i < n <= |turns| && turns[i].event.Demand? && b in turns[i].event.mode && !b.Other?
    ensures b in At(turns, n).pending || exists j :: i <= j < n && Served(turns, j, b)
  {
    RequestPendingOrDispatched(turns, i, n);
    if b !in At(turns, n).pending {
      var j :| i <= j < n && StartedWith(turns, j, turns[i].event.mode);
      var k := TaskCoversModes(Dispatched(At(turns, j), turns[j]).value, b);
      assert Served(turns, j, b);
    }
  }
}

/**
 The prepared-query cache against compiler rotation (daemon/authorizer/impl/prepared_query_cache.go).

 Preparing a query is a function of the compiler and the key.  Callers may interleave in any way; the only assumption
 about the runtime is that replacing the compiler and running the registered triggers is one step.
 */
module QueryCache {
  import opened Wrappers
  import opened Text

  // ---- Keys ----

  const UNIT_SEPARATOR: char := '\U{1F}'
  const RECORD_SEPARATOR: char := '\U{1E}'

  function Join(decisions: seq<string>): string {
    if |decisions| == 0 then ""
    else if |decisions| == 1 then decisions[0]
    else decisions[0] + [RECORD_SEPARATOR] + Join(decisions[1..])
  }

  function JoinedUpTo(decisions: seq<string>, n: nat): string
    requires n <= |decisions|
  {
    if n == 0 then ""
    else if n == 1 then decisions[0]
    else JoinedUpTo(decisions, n - 1) + [RECORD_SEPARATOR] + decisions[n - 1]
  }

  lemma {:induction false} JoinSnoc(decisions: seq<string>, n: nat)
    requires n <= |decisions|
    ensures JoinedUpTo(decisions, n) == Join(decisions[..n])
    decreases n
  {
    if n > 1 {
      JoinSnoc(decisions, n - 1);
      JoinAppend(decisions[..n - 1], decisions[n - 1]);
      assert decisions[..n] == decisions[..n - 1] + [decisions[n - 1]];
    } else if n == 1 {
      assert decisions[..1] == [decisions[0]];
    }
  }

  lemma {:induction false} JoinAppend(ds: seq<string>, d: string)
    requires ds != []
    ensures Join(ds + [d]) == Join(ds) + [RECORD_SEPARATOR] + d
    decreases |ds|
  {
    if |ds| == 1 {
      assert (ds + [d])[1..] == [d];
    } else {
      assert (ds + [d])[1..] == ds[1..] + [d];
      JoinAppend(ds[1..], d);
      assert Join(ds + [d]) == ds[0] + [RECORD_SEPARATOR] + (Join(ds[1..]) + [RECORD_SEPARATOR] + d);
    }
  }

  /** `cacheKey` */
  method CacheKey(path: string, decisions: seq<string>) returns (key: string)
    ensures key == KeyOf(path, decisions)
  {
    key := path;
    key := key + [UNIT_SEPARATOR];
    for i := 0 to |decisions|
      invariant key == path + [UNIT_SEPARATOR] + JoinedUpTo(decisions, i)
    {
      if i > 0 {
        key := key + [RECORD_SEPARATOR];
      }
      key := key + decisions[i];
    }
    JoinSnoc(decisions, |decisions|);
    assert decisions[..|decisions|] == decisions;
  }

  function KeyOf(path: string, decisions: seq<string>): string {
    path + [UNIT_SEPARATOR] + Join(decisions)
  }

  ghost predicate Clear(decisions: seq<string>) {
    forall i :: 0 <= i < |decisions| ==> RECORD_SEPARATOR !in decisions[i]
  }

  lemma JoinHasSeparator(ds: seq<string>)
    requires |ds| >= 2
    ensures RECORD_SEPARATOR in Join(ds)
  {
    assert Join(ds)[|ds[0]|] == RECORD_SEPARATOR;
  }

  lemma {:induction false} JoinInjective(ds: seq<string>, es: seq<string>)
    requires Clear(ds) && Clear(es) && ds != [] && es != [] && Join(ds) == Join(es)
    ensures ds == es
    decreases |ds|
  {
    if |ds| >= 2 && |es| >= 2 {
      SplitUnique(ds[0], Join(ds[1..]), es[0], Join(es[1..]), RECORD_SEPARATOR);
      JoinInjective(ds[1..], es[1..]);
      assert ds == [ds[0]] + ds[1..] && es == [es[0]] + es[1..];
    } else if |ds| >= 2 {
      JoinHasSeparator(ds);
    } else if |es| >= 2 {
      JoinHasSeparator(es);
    }
  }

  /**
   Two requests share a key exactly when they are the same request; with the one exception that no
   decisions and one decision with an empty name look alike.
   */
  lemma KeyEqualIff(p: string, ds: seq<string>, q: string, es: seq<string>)
    requires UNIT_SEPARATOR !in p && UNIT_SEPARATOR !in q && Clear(ds) && Clear(es)
    ensures KeyOf(p, ds) == KeyOf(q, es) <==>
            p == q && (ds == es || (ds in [[], [""]] && es in [[], [""]]))
  {
    if KeyOf(p, ds) == KeyOf(q, es) {
      SplitUnique(p, Join(ds), q, Join(es), UNIT_SEPARATOR);
      if ds != [] && es != [] {
        JoinInjective(ds, es);
      } else if ds == [] && es != [] {
        JoinInjective([""], es);
      } else if ds != [] {
        JoinInjective(ds, [""]);
      }
    }
  }

  // ---- The cache as a state machine ----

  /** The cached query of an entry and the compiler it was prepared with. */
  datatype Entry<Q> = Entry(version: nat, query: Q)

  /** The one flight a key can have: inside the singleflight call, then preparing. */
  datatype Flight = Entered | Preparing(version: nat)

  /** The first caller marks the runtime as watched, and only then registers the trigger. */
  datatype Watcher = Unregistered | Marked | Registered

  /**
   Callers are many and alike, so the state only says what at least one of them is about to do:
   `missed` holds the keys, and `pkgMissed` tells of the package list, that some caller found absent;
   `pkgReads` are the compilers whose packages some caller has read and not yet stored.
   */
  datatype State<Q> = State(
    compiler: nat, watcher: Watcher,
    entries: map<string, Entry<Q>>, missed: set<string>, flights: map<string, Flight>,
    packages: Option<nat>, pkgMissed: bool, pkgReads: set<nat>)

  datatype Step =
    | Mark                      // the first caller records that it will register the trigger
    | Register                  // and registers it
    | Miss(key: string)         // callers find no entry for the key
    | Enter(key: string)        // one of them opens the key's flight; others may wait for it
    | Recheck(key: string)      // the entry has appeared meanwhile
    | Start(key: string)        // it has not: take the current compiler
    | Finish(key: string)       // the query is prepared, or failed to be
    | Hit(key: string)
    | MissPackages              // callers find no package list
    | ReadPackages              // one of them reads the store
    | StorePackages(version: nat, last: bool) // and stores what it read; `last` if no other has read the same
    | FailPackages(version: nat, last: bool)  // or could not read it
    | Rotate                    // a new compiler

  /** Preparing a query against a compiler: a query, or an error. */
  type Prepare<Q> = (nat, string) -> Option<Q>

  function Init<Q>(): State<Q> {
    State(0, Unregistered, map[], {}, map[], None, false, {})
  }

  predicate Enabled<Q>(s: State<Q>, step: Step) {
    match step
    case Mark => s.watcher.Unregistered?
    case Register => s.watcher.Marked?
    case Miss(key) => !s.watcher.Unregistered? && key !in s.entries
    case Enter(key) => key in s.missed && key !in s.flights
    case Recheck(key) => key in s.flights && s.flights[key].Entered? && key in s.entries
    case Start(key) => key in s.flights && s.flights[key].Entered? && key !in s.entries
    case Finish(key) => key in s.flights && s.flights[key].Preparing?
    case Hit(key) => key in s.entries
    case MissPackages => !s.watcher.Unregistered? && s.packages.None?
    case ReadPackages => s.pkgMissed
    case StorePackages(version, _) => version in s.pkgReads
    case FailPackages(version, _) => version in s.pkgReads
    case Rotate => true
  }

  function Exec<Q>(prepare: Prepare<Q>, s: State<Q>, step: Step): State<Q>
    requires Enabled(s, step)
  {
    match step
    case Mark => s.(watcher := Marked)
    case Register => s.(watcher := Registered)
    case Miss(key) => s.(missed := s.missed + {key})
    case Enter(key) => s.(flights := s.flights[key := Entered])
    case Recheck(key) => s.(flights := s.flights - {key})
    case Start(key) => s.(flights := s.flights[key := Preparing(s.compiler)])
    case Finish(key) =>
      var version := s.flights[key].version;
      var q := prepare(version, key);
      var s' := s.(flights := s.flights - {key});
      if q.Some? then s'.(entries := s.entries[key := Entry(version, q.value)]) else s'
    case Hit(key) => s
    case MissPackages => s.(pkgMissed := true)
    case ReadPackages => s.(pkgReads := s.pkgReads + {s.compiler})
    case StorePackages(version, last) =>
      s.(pkgReads := if last then s.pkgReads - {version} else s.pkgReads, packages := Some(version))
    case FailPackages(version, last) => s.(pkgReads := if last then s.pkgReads - {version} else s.pkgReads)
    case Rotate =>
      var s' := s.(compiler := s.compiler + 1);
      if s.watcher.Registered? then s'.(entries := map[], packages := None) else s'
  }

  /** A run from a state: each step enabled where it is taken. */
  ghost predicate Legal<Q(!new)>(prepare: Prepare<Q>, s: State<Q>, steps: seq<Step>) {
    steps == [] ||
    (var n := |steps| - 1;
     Legal(prepare, s, steps[..n]) && Enabled(After(prepare, s, steps[..n]), steps[n]))
  }

  ghost function After<Q(!new)>(prepare: Prepare<Q>, s: State<Q>, steps: seq<Step>): State<Q> {
    if steps == [] then s
    else
      var n := |steps| - 1;
      var t := After(prepare, s, steps[..n]);
      if Enabled(t, steps[n]) then Exec(prepare, t, steps[n]) else t
  }

  lemma LegalSnoc<Q(!new)>(prepare: Prepare<Q>, s: State<Q>, steps: seq<Step>, step: Step)
    requires Legal(prepare, s, steps) && Enabled(After(prepare, s, steps), step)
    ensures Legal(prepare, s, steps + [step])
    ensures After(prepare, s, steps + [step]) == Exec(prepare, After(prepare, s, steps), step)
  {
    assert (steps + [step])[..|steps|] == steps;
  }

  // ---- Runs in which nothing is exposed to a rotation ----

  /**
   What a rotation can leave behind under a key: a query that is being prepared, or, as long as the
   trigger is not registered, an entry.
   */
  ghost predicate Exposed<Q>(s: State<Q>, key: string) {
    (key in s.flights && s.flights[key].Preparing?) || (!s.watcher.Registered? && key in s.entries)
  }

  /** The same for the package list: one being read, or, as long as the trigger is not registered, one cached. */
  ghost predicate PackagesExposed<Q>(s: State<Q>) {
    s.pkgReads != {} || (!s.watcher.Registered? && s.packages.Some?)
  }

  /** A run in which every rotation finds nothing exposed. */
  ghost predicate Sheltered<Q(!new)>(prepare: Prepare<Q>, s: State<Q>, steps: seq<Step>) {
    forall i :: 0 <= i < |steps| && steps[i].Rotate? ==>
      && (forall key :: !Exposed(After(prepare, s, steps[..i]), key))
      && !PackagesExposed(After(prepare, s, steps[..i]))
  }

  ghost predicate QueriesCurrent<Q>(prepare: Prepare<Q>, s: State<Q>) {
    && (forall key :: key in s.entries ==> Some(s.entries[key].query) == prepare(s.compiler, key))
    && (forall key :: key in s.flights && s.flights[key].Preparing? ==> s.flights[key].version == s.compiler)
  }

  ghost predicate PackagesCurrent<Q>(s: State<Q>) {
    && (forall v :: v in s.pkgReads ==> v == s.compiler)
    && (s.packages.Some? ==> s.packages.value == s.compiler)
  }

  /** Everything cached, or about to be, belongs to the current compiler. */
  ghost predicate Current<Q>(prepare: Prepare<Q>, s: State<Q>) {
    QueriesCurrent(prepare, s) && PackagesCurrent(s)
  }

  lemma QueriesStep<Q>(prepare: Prepare<Q>, s: State<Q>, step: Step)
    requires QueriesCurrent(prepare, s) && Enabled(s, step) && (step.Rotate? ==> forall key :: !Exposed(s, key))
    ensures QueriesCurrent(prepare, Exec(prepare, s, step))
  {
    if step.Rotate? {
      forall key | key in s.flights || key in s.entries ensures !Exposed(s, key) {}
    }
  }

  lemma PackagesStep<Q>(prepare: Prepare<Q>, s: State<Q>, step: Step)
    requires PackagesCurrent(s) && Enabled(s, step) && (step.Rotate? ==> !PackagesExposed(s))
    ensures PackagesCurrent(Exec(prepare, s, step))
  {
  }

  /**
   In every run in which rotations find nothing exposed, a hit returns what preparing the query
   afresh against the current compiler would, and the package list is that of the current compiler.
   */
  lemma {:induction false} HitsAreFresh<Q(!new)>(prepare: Prepare<Q>, s: State<Q>, steps: seq<Step>)
    requires Current(prepare, s) && Legal(prepare, s, steps) && Sheltered(prepare, s, steps)
    ensures Current(prepare, After(prepare, s, steps))
    decreases |steps|
  {
    if steps != [] {
      var n := |steps| - 1;
      var t := After(prepare, s, steps[..n]);
      forall i | 0 <= i < n && steps[..n][i].Rotate?
        ensures (forall key :: !Exposed(After(prepare, s, steps[..n][..i]), key))
                && !PackagesExposed(After(prepare, s, steps[..n][..i]))
      {
        assert steps[..n][..i] == steps[..i];
      }
      HitsAreFresh(prepare, s, steps[..n]);
      QueriesStep(prepare, t, steps[n]);
      PackagesStep(prepare, t, steps[n]);
    }
  }

  // ---- Exactly what a rotation leaves stale ----

  /** An entry under the key that a fresh preparation would not give. */
  ghost predicate Stale<Q>(prepare: Prepare<Q>, s: State<Q>, key: string) {
    key in s.entries && Some(s.entries[key].query) != prepare(s.compiler, key)
  }

  /** A package list read under another compiler. */
  ghost predicate PackagesStale<Q>(s: State<Q>) {
    s.packages.Some? && s.packages.value != s.compiler
  }

  ghost predicate NoRotation(steps: seq<Step>) {
    forall i :: 0 <= i < |steps| ==> !steps[i].Rotate?
  }

  /** The compiler is replaced in `s`, and `rest` happens before it is replaced again. */
  ghost predicate IsRest<Q(!new)>(prepare: Prepare<Q>, s: State<Q>, rest: seq<Step>) {
    NoRotation(rest) && Legal(prepare, Exec(prepare, s, Rotate), rest)
  }

  ghost function Later<Q(!new)>(prepare: Prepare<Q>, s: State<Q>, rest: seq<Step>): State<Q> {
    After(prepare, Exec(prepare, s, Rotate), rest)
  }

  /** Where a key can stand after the rotation in `s`: the new compiler's answer, or the exposed old one. */
  ghost predicate Traced<Q>(prepare: Prepare<Q>, s: State<Q>, t: State<Q>, key: string) {
    && t.compiler == s.compiler + 1
    && (key in t.entries ==>
          || Some(t.entries[key].query) == prepare(t.compiler, key)
          || (Exposed(s, key) && Some(t.entries[key].query) == prepare(s.compiler, key)))
    && (key in t.flights && t.flights[key].Preparing? ==>
          || t.flights[key].version == t.compiler
          || (Exposed(s, key) && t.flights[key].version == s.compiler))
  }

  lemma RotateTraced<Q>(prepare: Prepare<Q>, s: State<Q>, key: string)
    requires QueriesCurrent(prepare, s)
    ensures Traced(prepare, s, Exec(prepare, s, Rotate), key)
  {
  }

  lemma TracedStep<Q>(prepare: Prepare<Q>, s: State<Q>, t: State<Q>, step: Step, key: string)
    requires Traced(prepare, s, t, key) && Enabled(t, step) && !step.Rotate?
    ensures Traced(prepare, s, Exec(prepare, t, step), key)
  {
  }

  lemma {:induction false} RestTraced<Q(!new)>(prepare: Prepare<Q>, s: State<Q>, rest: seq<Step>, key: string)
    requires Current(prepare, s) && IsRest(prepare, s, rest)
    ensures Traced(prepare, s, Later(prepare, s, rest), key)
    decreases |rest|
  {
    if rest == [] {
      RotateTraced(prepare, s, key);
    } else {
      var n := |rest| - 1;
      RestTraced(prepare, s, rest[..n], key);
      TracedStep(prepare, s, Later(prepare, s, rest[..n]), rest[n], key);
    }
  }

  /** Some run that goes on from the rotation in `s`, without another one, reaches a stale entry for the key. */
  ghost predicate CanGoStale<Q(!new)>(prepare: Prepare<Q>, s: State<Q>, key: string) {
    exists rest :: IsRest(prepare, s, rest) && Stale(prepare, Later(prepare, s, rest), key)
  }

  /** The two compilers on either side of the rotation disagree on a query the old one gave. */
  ghost predicate Disagree<Q>(prepare: Prepare<Q>, s: State<Q>, key: string) {
    prepare(s.compiler, key).Some? && prepare(s.compiler, key) != prepare(s.compiler + 1, key)
  }

  lemma ExposedGoesStale<Q(!new)>(prepare: Prepare<Q>, s: State<Q>, key: string) returns (rest: seq<Step>)
    requires Current(prepare, s) && Exposed(s, key) && Disagree(prepare, s, key)
    ensures IsRest(prepare, s, rest) && Stale(prepare, Later(prepare, s, rest), key)
  {
    rest := [];
    if key in s.flights && s.flights[key].Preparing? {
      LegalSnoc(prepare, Exec(prepare, s, Rotate), [], Finish(key));
      rest := [] + [Finish(key)];
    }
  }

  lemma StaleWasExposed<Q>(prepare: Prepare<Q>, s: State<Q>, t: State<Q>, key: string)
    requires Traced(prepare, s, t, key) && Stale(prepare, t, key)
    ensures Exposed(s, key) && Disagree(prepare, s, key)
  {
  }

  /**
   The condition is exact, over runs.  Replace the compiler in a state in which everything is
   current: some run that goes on from there reaches a stale entry for the key if and only if the
   key was exposed and the two compilers disagree on it.
   */
  lemma RotationStaleIff<Q(!new)>(prepare: Prepare<Q>, s: State<Q>, key: string)
    requires Current(prepare, s)
    ensures CanGoStale(prepare, s, key) <==> Exposed(s, key) && Disagree(prepare, s, key)
  {
    if CanGoStale(prepare, s, key) {
      var rest :| IsRest(prepare, s, rest) && Stale(prepare, Later(prepare, s, rest), key);
      RestTraced(prepare, s, rest, key);
      StaleWasExposed(prepare, s, Later(prepare, s, rest), key);
    }
    if Exposed(s, key) && Disagree(prepare, s, key) {
      var rest := ExposedGoesStale(prepare, s, key);
    }
  }

  ghost predicate PackagesTraced<Q>(s: State<Q>, t: State<Q>) {
    && t.compiler == s.compiler + 1
    && (t.packages.Some? ==> t.packages.value == t.compiler || PackagesExposed(s))
    && (forall v :: v in t.pkgReads ==> v == t.compiler || PackagesExposed(s))
  }

  lemma PackagesTracedStep<Q>(prepare: Prepare<Q>, s: State<Q>, t: State<Q>, step: Step)
    requires PackagesTraced(s, t) && Enabled(t, step) && !step.Rotate?
    ensures PackagesTraced(s, Exec(prepare, t, step))
  {
  }

  lemma {:induction false} RestPackagesTraced<Q(!new)>(prepare: Prepare<Q>, s: State<Q>, rest: seq<Step>)
    requires Current(prepare, s) && IsRest(prepare, s, rest)
    ensures PackagesTraced(s, Later(prepare, s, rest))
    decreases |rest|
  {
    if rest != [] {
      var n := |rest| - 1;
      RestPackagesTraced(prepare, s, rest[..n]);
      PackagesTracedStep(prepare, s, Later(prepare, s, rest[..n]), rest[n]);
    }
  }

  /** For the package list: an old list can be cached after the rotation if and only if the list was exposed. */
  lemma RotationPackagesStaleIff<Q(!new)>(prepare: Prepare<Q>, s: State<Q>)
    requires Current(prepare, s)
    ensures (exists rest :: IsRest(prepare, s, rest) && PackagesStale(Later(prepare, s, rest))) <==> PackagesExposed(s)
  {
    if rest :| IsRest(prepare, s, rest) && PackagesStale(Later(prepare, s, rest)) {
      RestPackagesTraced(prepare, s, rest);
    }
    if PackagesExposed(s) {
      var s' := Exec(prepare, s, Rotate);
      assert IsRest(prepare, s, []) && Later(prepare, s, []) == s';
      if s.pkgReads != {} {
        var v :| v in s.pkgReads;
        LegalSnoc(prepare, s', [], StorePackages(v, true));
        assert [] + [StorePackages(v, true)] == [StorePackages(v, true)];
        assert IsRest(prepare, s, [StorePackages(v, true)]) && PackagesStale(Later(prepare, s, [StorePackages(v, true)]));
      } else {
        assert PackagesStale(Later(prepare, s, []));
      }
    }
  }

  // ---- Runs from the start ----

  /** Entries were prepared with the compiler they name, and no query is prepared for a key that has an entry. */
  ghost predicate Versioned<Q>(prepare: Prepare<Q>, s: State<Q>) {
    && (forall key :: key in s.entries ==>
          s.entries[key].version <= s.compiler && Some(s.entries[key].query) == prepare(s.entries[key].version, key))
    && (forall key :: key in s.flights && s.flights[key].Preparing? ==>
          s.flights[key].version <= s.compiler && key !in s.entries)
  }

  lemma VersionedStep<Q>(prepare: Prepare<Q>, s: State<Q>, step: Step)
    requires Versioned(prepare, s) && Enabled(s, step)
    ensures Versioned(prepare, Exec(prepare, s, step))
  {
  }

  lemma {:induction false} AlwaysVersioned<Q(!new)>(prepare: Prepare<Q>, steps: seq<Step>)
    requires Legal(prepare, Init(), steps)
    ensures Versioned(prepare, After(prepare, Init(), steps))
    decreases |steps|
  {
    if steps != [] {
      var n := |steps| - 1;
      AlwaysVersioned(prepare, steps[..n]);
      VersionedStep(prepare, After(prepare, Init(), steps[..n]), steps[n]);
    }
  }

  /** A stale entry stays until the next rotation, whatever the callers do. */
  lemma {:induction false} StaleStays<Q(!new)>(prepare: Prepare<Q>, steps: seq<Step>, n: nat, key: string)
    requires Legal(prepare, Init(), steps) && n <= |steps| && Stale(prepare, After(prepare, Init(), steps[..n]), key)
    requires forall i :: n <= i < |steps| ==> !steps[i].Rotate?
    ensures Stale(prepare, After(prepare, Init(), steps), key)
    decreases |steps|
  {
    if n == |steps| {
      assert steps[..n] == steps;
    } else {
      var m := |steps| - 1;
      assert steps[..m][..n] == steps[..n];
      StaleStays(prepare, steps[..m], n, key);
      AlwaysVersioned(prepare, steps[..m]);
    }
  }

  lemma {:induction false} RotateMore<Q(!new)>(prepare: Prepare<Q>, steps: seq<Step>, n: nat) returns (more: seq<Step>)
    requires Legal(prepare, Init(), steps) && !After(prepare, Init(), steps).watcher.Registered?
    ensures Legal(prepare, Init(), more)
    ensures var s := After(prepare, Init(), steps); After(prepare, Init(), more) == s.(compiler := s.compiler + n)
    decreases n
  {
    more := steps;
    if n > 0 {
      var fewer := RotateMore(prepare, steps, n - 1);
      LegalSnoc(prepare, Init(), fewer, Rotate);
      more := fewer + [Rotate];
    }
  }

  lemma OpenFlight<Q(!new)>(prepare: Prepare<Q>, steps: seq<Step>, key: string) returns (more: seq<Step>)
    requires Legal(prepare, Init(), steps)
    requires var s := After(prepare, Init(), steps); !s.watcher.Unregistered? && key !in s.entries && key !in s.flights
    ensures Legal(prepare, Init(), more)
    ensures var s := After(prepare, Init(), steps);
            After(prepare, Init(), more) == s.(missed := s.missed + {key}, flights := s.flights[key := Entered])
  {
    LegalSnoc(prepare, Init(), steps, Miss(key));
    LegalSnoc(prepare, Init(), steps + [Miss(key)], Enter(key));
    more := steps + [Miss(key)] + [Enter(key)];
  }

  /** A caller that finds nothing cached for the key opens its flight and takes the current compiler. */
  lemma BeginPreparing<Q(!new)>(prepare: Prepare<Q>, steps: seq<Step>, key: string) returns (more: seq<Step>)
    requires Legal(prepare, Init(), steps)
    requires var s := After(prepare, Init(), steps); !s.watcher.Unregistered? && key !in s.entries && key !in s.flights
    ensures Legal(prepare, Init(), more)
    ensures var s := After(prepare, Init(), steps);
            After(prepare, Init(), more) == s.(missed := s.missed + {key}, flights := s.flights[key := Preparing(s.compiler)])
  {
    var open := OpenFlight(prepare, steps, key);
    LegalSnoc(prepare, Init(), open, Start(key));
    more := open + [Start(key)];
  }

  /** A caller between the mark and the registration caches a query, which then outlives any number of rotations. */
  lemma GapRun<Q(!new)>(prepare: Prepare<Q>, key: string, first: nat, now: nat) returns (steps: seq<Step>)
    requires first < now && prepare(first, key).Some?
    ensures Legal(prepare, Init(), steps)
    ensures var s := After(prepare, Init(), steps);
            && s.compiler == now && s.flights == map[] && s.pkgReads == {} && s.watcher.Registered?
            && key in s.entries && Some(s.entries[key].query) == prepare(first, key)
  {
    var early := RotateMore(prepare, [], first);
    LegalSnoc(prepare, Init(), early, Mark);
    var s1 := early + [Mark];
    var s2 := BeginPreparing(prepare, s1, key);
    LegalSnoc(prepare, Init(), s2, Finish(key));
    var s3 := s2 + [Finish(key)];
    var s4 := RotateMore(prepare, s3, now - first);
    LegalSnoc(prepare, Init(), s4, Register);
    steps := s4 + [Register];
  }

  /** Some run from the start reaches a stale entry for the key. */
  ghost predicate EverStale<Q(!new)>(prepare: Prepare<Q>, key: string) {
    exists steps :: Legal(prepare, Init(), steps) && Stale(prepare, After(prepare, Init(), steps), key)
  }

  /** Some compiler gives a query for the key that a later one does not. */
  ghost predicate EverDisagree<Q>(prepare: Prepare<Q>, key: string) {
    exists first: nat, now: nat :: first < now && prepare(first, key).Some? && prepare(first, key) != prepare(now, key)
  }

  lemma StaleDisagrees<Q>(prepare: Prepare<Q>, s: State<Q>, key: string)
    requires Versioned(prepare, s) && Stale(prepare, s, key)
    ensures EverDisagree(prepare, key)
  {
    var first := s.entries[key].version;
    assert first < s.compiler && prepare(first, key).Some? && prepare(first, key) != prepare(s.compiler, key);
  }

  /** From the start, over every run: a key can come to have a stale entry if and only if compilers ever disagree on it. */
  lemma StaleEverIff<Q(!new)>(prepare: Prepare<Q>, key: string)
    ensures EverStale(prepare, key) <==> EverDisagree(prepare, key)
  {
    if EverStale(prepare, key) {
      var steps :| Legal(prepare, Init(), steps) && Stale(prepare, After(prepare, Init(), steps), key);
      AlwaysVersioned(prepare, steps);
      StaleDisagrees(prepare, After(prepare, Init(), steps), key);
    }
    if EverDisagree(prepare, key) {
      var first: nat, now: nat :| first < now && prepare(first, key).Some? && prepare(first, key) != prepare(now, key);
      var steps := GapRun(prepare, key, first, now);
    }
  }

  /** One caller whose preparation straddles a rotation is enough, with the trigger long registered. */
  lemma QueryStraddle<Q(!new)>(prepare: Prepare<Q>, key: string) returns (steps: seq<Step>)
    requires prepare(0, key).Some? && prepare(0, key) != prepare(1, key)
    ensures Legal(prepare, Init(), steps)
    ensures var s := After(prepare, Init(), steps); s.watcher.Registered? && Stale(prepare, s, key) && s.flights == map[]
  {
    LegalSnoc(prepare, Init(), [], Mark);
    var s1 := [] + [Mark];
    LegalSnoc(prepare, Init(), s1, Register);
    var s2 := s1 + [Register];
    var s3 := BeginPreparing(prepare, s2, key);
    LegalSnoc(prepare, Init(), s3, Rotate);
    var s4 := s3 + [Rotate];
    LegalSnoc(prepare, Init(), s4, Finish(key));
    steps := s4 + [Finish(key)];
  }

  /** And so is the first rotation, between the mark and the registration, with nothing in flight when it comes. */
  lemma QueryGap<Q(!new)>(prepare: Prepare<Q>, key: string) returns (before: seq<Step>)
    requires prepare(0, key).Some? && prepare(0, key) != prepare(1, key)
    ensures Legal(prepare, Init(), before + [Rotate] + [Register])
    ensures var s := After(prepare, Init(), before); s.compiler == 0 && s.flights == map[]
    ensures var s := After(prepare, Init(), before + [Rotate] + [Register]);
            s.watcher.Registered? && s.flights == map[] && Stale(prepare, s, key)
  {
    LegalSnoc(prepare, Init(), [], Mark);
    var s1 := [] + [Mark];
    var s2 := BeginPreparing(prepare, s1, key);
    LegalSnoc(prepare, Init(), s2, Finish(key));
    before := s2 + [Finish(key)];
    LegalSnoc(prepare, Init(), before, Rotate);
    LegalSnoc(prepare, Init(), before + [Rotate], Register);
  }

  /** One package read that straddles a rotation leaves the old list, with the trigger long registered. */
  lemma PackagesStraddle<Q(!new)>(prepare: Prepare<Q>) returns (steps: seq<Step>)
    ensures Legal(prepare, Init(), steps)
    ensures var s := After(prepare, Init(), steps); s.watcher.Registered? && PackagesStale(s) && s.pkgReads == {}
  {
    LegalSnoc(prepare, Init(), [], Mark);
    var s1 := [] + [Mark];
    LegalSnoc(prepare, Init(), s1, Register);
    var s2 := s1 + [Register];
    LegalSnoc(prepare, Init(), s2, MissPackages);
    var s3 := s2 + [MissPackages];
    LegalSnoc(prepare, Init(), s3, ReadPackages);
    var s4 := s3 + [ReadPackages];
    LegalSnoc(prepare, Init(), s4, Rotate);
    var s5 := s4 + [Rotate];
    LegalSnoc(prepare, Init(), s5, StorePackages(0, true));
    steps := s5 + [StorePackages(0, true)];
  }

  /** And so does a list cached between the mark and the registration, with nothing being read at the rotation. */
  lemma PackagesGap<Q(!new)>(prepare: Prepare<Q>) returns (before: seq<Step>)
    ensures Legal(prepare, Init(), before + [Rotate] + [Register])
    ensures var s := After(prepare, Init(), before); s.compiler == 0 && s.pkgReads == {}
    ensures var s := After(prepare, Init(), before + [Rotate] + [Register]); s.watcher.Registered? && PackagesStale(s)
  {
    LegalSnoc(prepare, Init(), [], Mark);
    var s1 := [] + [Mark];
    LegalSnoc(prepare, Init(), s1, MissPackages);
    var s2 := s1 + [MissPackages];
    LegalSnoc(prepare, Init(), s2, ReadPackages);
    var s3 := s2 + [ReadPackages];
    LegalSnoc(prepare, Init(), s3, StorePackages(0, true));
    before := s3 + [StorePackages(0, true)];
    LegalSnoc(prepare, Init(), before, Rotate);
    LegalSnoc(prepare, Init(), before + [Rotate], Register);
  }
}

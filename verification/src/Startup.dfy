/**
 Dependency-ordered server start-up (daemon/service/builder/service_manager.go, daemon/app/eamerald.go).

 One goroutine per address: it receives once from the `Started` channel of every address it depends
 on, in turn, then serves, then sends once on its own `Started` channel.  The channels are
 unbuffered, so a send and a receive are one step.
 */
module Startup {
  import opened Order

  type Address = string

  type DependencyMap = map<Address, seq<Address>>

  function DepsOf(deps: DependencyMap, a: Address): seq<Address> {
    if a in deps then deps[a] else []
  }

  ghost predicate Depends(deps: DependencyMap, a: Address, b: Address) {
    b in DepsOf(deps, a)
  }

  // ---- Building the dependency map ----

  /** One entry of the API configuration. */
  datatype Service = Service(address: Address, needs: seq<string>)

  /** One of the first `n` names a service needs is configured at address `b`. */
  ghost predicate Wants(services: map<string, Service>, svc: Service, n: nat, b: Address)
    requires n <= |svc.needs|
  {
    exists j :: 0 <= j < n && svc.needs[j] in services && services[svc.needs[j]].address == b
  }

  /** One of the first `n` named services lives at `a` and needs something that lives at `b`. */
  ghost predicate Needs(services: map<string, Service>, names: seq<string>, n: nat, a: Address, b: Address)
    requires n <= |names| && forall i :: 0 <= i < |names| ==> names[i] in services
  {
    exists i :: 0 <= i < n && services[names[i]].address == a
                && Wants(services, services[names[i]], |services[names[i]].needs|, b)
  }

  ghost predicate Tidy(deps: DependencyMap) {
    forall a :: NoDuplicates(DepsOf(deps, a)) && a !in DepsOf(deps, a)
  }

  /** The inner loop of `Start`: the needs of one service. */
  method AddNeeds(deps: DependencyMap, services: map<string, Service>, svc: Service) returns (r: DependencyMap)
    requires Tidy(deps)
    ensures Tidy(r)
    ensures forall a, b :: Depends(r, a, b) <==>
              Depends(deps, a, b) || (a == svc.address && a != b && Wants(services, svc, |svc.needs|, b))
  {
    r := deps;
    for j := 0 to |svc.needs|
      invariant Tidy(r)
      invariant forall a, b :: Depends(r, a, b) <==>
                  Depends(deps, a, b) || (a == svc.address && a != b && Wants(services, svc, j, b))
    {
      var name := svc.needs[j];
      ghost var before := r;
      if name in services {
        var address := services[name].address;
        if address !in DepsOf(r, svc.address) && svc.address != address {
          r := r[svc.address := DepsOf(r, svc.address) + [address]];
        }
      }
      forall a, b ensures Depends(r, a, b) <==>
                            Depends(before, a, b)
                            || (a == svc.address && a != b && name in services && services[name].address == b) {
      }
      forall a ensures NoDuplicates(DepsOf(r, a)) && a !in DepsOf(r, a) {
        assert NoDuplicates(DepsOf(before, a)) && a !in DepsOf(before, a);
      }
      forall b ensures Wants(services, svc, j + 1, b)
                       <==> Wants(services, svc, j, b) || (name in services && services[name].address == b) {
      }
    }
  }

  /**
   `Start` builds the map service by service, in whatever order the configuration map yields them.
   The result has an edge exactly for every need between two addresses, each once, and none from an
   address to itself.
   */
  method BuildDependencyMap(services: map<string, Service>, names: seq<string>) returns (deps: DependencyMap)
    requires forall i :: 0 <= i < |names| ==> names[i] in services
    ensures Tidy(deps)
    ensures forall a, b :: Depends(deps, a, b) <==> a != b && Needs(services, names, |names|, a, b)
  {
    deps := map[];
    for i := 0 to |names|
      invariant Tidy(deps)
      invariant forall a, b :: Depends(deps, a, b) <==> a != b && Needs(services, names, i, a, b)
    {
      var svc := services[names[i]];
      deps := AddNeeds(deps, services, svc);
      forall a, b ensures Needs(services, names, i + 1, a, b)
                          <==> Needs(services, names, i, a, b)
                               || (a == svc.address && Wants(services, svc, |svc.needs|, b)) {
      }
    }
  }

  // ---- Starting ----

  datatype Config = Config(servers: set<Address>, deps: DependencyMap) {
    function Deps(a: Address): seq<Address> { DepsOf(deps, a) }
  }

  /** What the map builder and the service setup establish. */
  ghost predicate WellFormed(cfg: Config) {
    forall a :: a in cfg.servers ==>
      && NoDuplicates(cfg.Deps(a)) && a !in cfg.Deps(a)
      && forall i :: 0 <= i < |cfg.Deps(a)| ==> cfg.Deps(a)[i] in cfg.servers
  }

  /** The map `Start` builds is one the servers can run on, when every configured address has a server. */
  lemma BuiltMapWellFormed(services: map<string, Service>, names: seq<string>, deps: DependencyMap, servers: set<Address>)
    requires forall i :: 0 <= i < |names| ==> names[i] in services
    requires Tidy(deps) && forall a, b :: Depends(deps, a, b) <==> a != b && Needs(services, names, |names|, a, b)
    requires forall n :: n in services ==> services[n].address in servers
    ensures WellFormed(Config(servers, deps))
  {
    var cfg := Config(servers, deps);
    forall a, i | a in servers && 0 <= i < |cfg.Deps(a)| ensures cfg.Deps(a)[i] in servers {
      assert Depends(deps, a, cfg.Deps(a)[i]);
    }
    assert forall a :: cfg.Deps(a) == DepsOf(deps, a);
  }

  datatype Phase =
    | Waiting(got: nat)            // has received from the first `got` of its dependencies
    | Serving                      // serves, and is ready to send
    | Signalled(receiver: Address) // serves, and its one signal went to `receiver`

  /** Where every server is, and the order in which they began to serve. */
  datatype State = State(phase: map<Address, Phase>, order: seq<Address>)

  datatype Step = Serve(a: Address) | Signal(a: Address, receiver: Address)

  function Init(cfg: Config): State {
    State(map a | a in cfg.servers :: Waiting(0), [])
  }

  predicate Enabled(cfg: Config, s: State, step: Step) {
    match step
    case Serve(a) =>
      a in s.phase && s.phase[a].Waiting? && s.phase[a].got == |cfg.Deps(a)|
    case Signal(a, b) =>
      && a in s.phase && s.phase[a].Serving?
      && b in s.phase && s.phase[b].Waiting? && s.phase[b].got < |cfg.Deps(b)| && cfg.Deps(b)[s.phase[b].got] == a
  }

  function Exec(cfg: Config, s: State, step: Step): State
    requires Enabled(cfg, s, step)
  {
    match step
    case Serve(a) => State(s.phase[a := Serving], s.order + [a])
    case Signal(a, b) => s.(phase := s.phase[a := Signalled(b)][b := Waiting(s.phase[b].got + 1)])
  }

  ghost predicate Legal(cfg: Config, steps: seq<Step>) {
    steps == [] ||
    (var n := |steps| - 1;
     Legal(cfg, steps[..n]) && Enabled(cfg, After(cfg, steps[..n]), steps[n]))
  }

  ghost function After(cfg: Config, steps: seq<Step>): State {
    if steps == [] then Init(cfg)
    else
      var n := |steps| - 1;
      var s := After(cfg, steps[..n]);
      if Enabled(cfg, s, steps[n]) then Exec(cfg, s, steps[n]) else s
  }

  /** How many of its dependencies a server has heard from. */
  function Got(cfg: Config, s: State, a: Address): nat
    requires a in s.phase
  {
    if s.phase[a].Waiting? then s.phase[a].got else |cfg.Deps(a)|
  }

  ghost predicate Bounded(cfg: Config, s: State) {
    s.phase.Keys == cfg.servers && forall a :: a in s.phase ==> Got(cfg, s, a) <= |cfg.Deps(a)|
  }

  /** A server has heard from a dependency exactly when that one's signal went to it. */
  ghost predicate SignalsMatch(cfg: Config, s: State)
    requires Bounded(cfg, s)
  {
    && (forall b, j :: b in s.phase && 0 <= j < Got(cfg, s, b) ==>
          cfg.Deps(b)[j] in s.phase && s.phase[cfg.Deps(b)[j]] == Signalled(b))
    && (forall a :: a in s.phase && s.phase[a].Signalled? ==>
          var b := s.phase[a].receiver;
          b in s.phase && exists j :: 0 <= j < Got(cfg, s, b) && cfg.Deps(b)[j] == a)
  }

  /** Position `p` of the order comes after every dependency of the server there. */
  ghost predicate PlacedAfterDeps(cfg: Config, order: seq<Address>, p: nat)
    requires p < |order|
  {
    forall j :: 0 <= j < |cfg.Deps(order[p])| ==> cfg.Deps(order[p])[j] in order[..p]
  }

  ghost predicate OrderOk(cfg: Config, s: State) {
    && NoDuplicates(s.order)
    && (forall a :: a in s.order <==> a in s.phase && !s.phase[a].Waiting?)
    && (forall p :: 0 <= p < |s.order| ==> PlacedAfterDeps(cfg, s.order, p))
  }

  ghost predicate Inv(cfg: Config, s: State) {
    Bounded(cfg, s) && SignalsMatch(cfg, s) && OrderOk(cfg, s)
  }

  lemma ServeKeepsOrder(cfg: Config, s: State, a: Address)
    requires WellFormed(cfg) && Inv(cfg, s) && Enabled(cfg, s, Serve(a))
    ensures OrderOk(cfg, Exec(cfg, s, Serve(a)))
  {
    var s' := Exec(cfg, s, Serve(a));
    var n := |s.order|;
    forall p | 0 <= p < |s'.order| ensures PlacedAfterDeps(cfg, s'.order, p) {
      assert s'.order[..p] == s.order[..p];
      if p < n {
        assert s'.order[p] == s.order[p] && PlacedAfterDeps(cfg, s.order, p);
      } else {
        assert s.order[..n] == s.order;
        forall j | 0 <= j < |cfg.Deps(a)| ensures cfg.Deps(a)[j] in s.order {
          assert s.phase[cfg.Deps(a)[j]] == Signalled(a);
        }
      }
    }
  }

  lemma ServeKeepsSignals(cfg: Config, s: State, a: Address)
    requires WellFormed(cfg) && Inv(cfg, s) && Enabled(cfg, s, Serve(a))
    ensures Bounded(cfg, Exec(cfg, s, Serve(a))) && SignalsMatch(cfg, Exec(cfg, s, Serve(a)))
  {
    var s' := Exec(cfg, s, Serve(a));
    assert forall b :: b in s.phase ==> Got(cfg, s', b) == Got(cfg, s, b);
  }

  lemma SignalKeepsSignals(cfg: Config, s: State, a: Address, b: Address)
    requires WellFormed(cfg) && Inv(cfg, s) && Enabled(cfg, s, Signal(a, b))
    ensures Bounded(cfg, Exec(cfg, s, Signal(a, b))) && SignalsMatch(cfg, Exec(cfg, s, Signal(a, b)))
  {
    var s' := Exec(cfg, s, Signal(a, b));
    var g := s.phase[b].got;
    assert forall x :: x in s.phase && x != b ==> Got(cfg, s', x) == Got(cfg, s, x);
    forall x, j | x in s'.phase && 0 <= j < Got(cfg, s', x)
      ensures cfg.Deps(x)[j] in s'.phase && s'.phase[cfg.Deps(x)[j]] == Signalled(x)
    {
      if !(x == b && j == g) {
        assert s.phase[cfg.Deps(x)[j]] == Signalled(x);
      }
    }
    forall x | x in s'.phase && s'.phase[x].Signalled?
      ensures var y := s'.phase[x].receiver;
              y in s'.phase && exists j :: 0 <= j < Got(cfg, s', y) && cfg.Deps(y)[j] == x
    {
      if x == a {
        assert cfg.Deps(b)[g] == a;
      } else {
        var y := s.phase[x].receiver;
        var j :| 0 <= j < Got(cfg, s, y) && cfg.Deps(y)[j] == x;
        assert j < Got(cfg, s', y);
      }
    }
  }

  lemma InvStep(cfg: Config, s: State, step: Step)
    requires WellFormed(cfg) && Inv(cfg, s) && Enabled(cfg, s, step)
    ensures Inv(cfg, Exec(cfg, s, step))
  {
    match step
    case Serve(a) =>
      ServeKeepsOrder(cfg, s, a);
      ServeKeepsSignals(cfg, s, a);
    case Signal(a, b) =>
      SignalKeepsSignals(cfg, s, a, b);
  }

  lemma {:induction false} InvAlways(cfg: Config, steps: seq<Step>)
    requires WellFormed(cfg) && Legal(cfg, steps)
    ensures Inv(cfg, After(cfg, steps))
    decreases |steps|
  {
    if steps != [] {
      var n := |steps| - 1;
      InvAlways(cfg, steps[..n]);
      InvStep(cfg, After(cfg, steps[..n]), steps[n]);
    }
  }

  /** In every interleaving, a server serves only after each address it depends on has begun to. */
  lemma ServesAfterDependencies(cfg: Config, steps: seq<Step>, p: nat, j: nat) returns (q: nat)
    requires WellFormed(cfg) && Legal(cfg, steps)
    requires p < |After(cfg, steps).order| && j < |cfg.Deps(After(cfg, steps).order[p])|
    ensures q < p && After(cfg, steps).order[q] == cfg.Deps(After(cfg, steps).order[p])[j]
  {
    InvAlways(cfg, steps);
    var order := After(cfg, steps).order;
    assert PlacedAfterDeps(cfg, order, p);
    var d := cfg.Deps(order[p])[j];
    assert d in order[..p];
    q :| 0 <= q < p && order[..p][q] == d;
  }

  // ---- Who gets to serve ----

  predicate AllServing(s: State) {
    forall a :: a in s.phase ==> !s.phase[a].Waiting?
  }

  ghost predicate IsRank(cfg: Config, rank: Address -> nat) {
    forall a, j :: a in cfg.servers && 0 <= j < |cfg.Deps(a)| ==> rank(cfg.Deps(a)[j]) < rank(a)
  }

  ghost predicate Acyclic(cfg: Config) {
    exists rank: Address -> nat :: IsRank(cfg, rank)
  }

  /** No address is waited for by two others: its one signal cannot reach both. */
  ghost predicate OneDependent(cfg: Config) {
    forall b, c, i, j ::
      (b in cfg.servers && c in cfg.servers && 0 <= i < |cfg.Deps(b)| && 0 <= j < |cfg.Deps(c)|
       && cfg.Deps(b)[i] == cfg.Deps(c)[j])
      ==> b == c
  }

  lemma {:induction false} LowestRank(rank: Address -> nat, waiting: set<Address>) returns (b: Address)
    requires waiting != {}
    ensures b in waiting && forall a :: a in waiting ==> rank(b) <= rank(a)
    decreases |waiting|
  {
    b :| b in waiting;
    if waiting != {b} {
      var rest := waiting - {b};
      assert waiting == rest + {b};
      var c := LowestRank(rank, rest);
      if rank(c) < rank(b) {
        b := c;
      }
    }
  }

  /** While someone waits there is a step to take: the lowest-ranked waiter is ready, or can be signalled. */
  lemma NoWaiterStuck(cfg: Config, steps: seq<Step>) returns (step: Step)
    requires WellFormed(cfg) && Acyclic(cfg) && OneDependent(cfg) && Legal(cfg, steps)
    requires !AllServing(After(cfg, steps))
    ensures Enabled(cfg, After(cfg, steps), step)
  {
    InvAlways(cfg, steps);
    var s := After(cfg, steps);
    var rank: Address -> nat :| IsRank(cfg, rank);
    var waiting := set a | a in s.phase && s.phase[a].Waiting?;
    var w :| w in s.phase && s.phase[w].Waiting?;
    assert w in waiting;
    var b := LowestRank(rank, waiting);
    var g := s.phase[b].got;
    if g == |cfg.Deps(b)| {
      step := Serve(b);
    } else {
      var d := cfg.Deps(b)[g];
      step := Signal(d, b);
      assert rank(d) < rank(b);
    }
  }

  ghost function Served(s: State): set<Address> {
    set a | a in s.phase && !s.phase[a].Waiting?
  }

  ghost function Spoken(s: State): set<Address> {
    set a | a in s.phase && s.phase[a].Signalled?
  }

  lemma ServeCounts(cfg: Config, s: State, a: Address)
    requires Enabled(cfg, s, Serve(a))
    ensures |Served(Exec(cfg, s, Serve(a)))| == |Served(s)| + 1
    ensures |Spoken(Exec(cfg, s, Serve(a)))| == |Spoken(s)|
  {
    var s' := Exec(cfg, s, Serve(a));
    assert Served(s') == Served(s) + {a};
    assert Spoken(s') == Spoken(s);
  }

  lemma SignalCounts(cfg: Config, s: State, a: Address, b: Address)
    requires Enabled(cfg, s, Signal(a, b))
    ensures |Served(Exec(cfg, s, Signal(a, b)))| == |Served(s)|
    ensures |Spoken(Exec(cfg, s, Signal(a, b)))| == |Spoken(s)| + 1
  {
    var s' := Exec(cfg, s, Signal(a, b));
    assert Served(s') == Served(s);
    assert Spoken(s') == Spoken(s) + {a};
  }

  /** Every step either starts one more server or uses up one more signal. */
  lemma {:induction false} StepsCount(cfg: Config, steps: seq<Step>)
    requires Legal(cfg, steps)
    ensures |steps| == |Served(After(cfg, steps))| + |Spoken(After(cfg, steps))|
    decreases |steps|
  {
    if steps == [] {
      assert Served(Init(cfg)) == {} && Spoken(Init(cfg)) == {};
    } else {
      var n := |steps| - 1;
      StepsCount(cfg, steps[..n]);
      match steps[n]
      case Serve(a) => ServeCounts(cfg, After(cfg, steps[..n]), a);
      case Signal(a, b) => SignalCounts(cfg, After(cfg, steps[..n]), a, b);
    }
  }

  /** So no run is longer than two steps per server. */
  lemma RunsEnd(cfg: Config, steps: seq<Step>)
    requires WellFormed(cfg) && Legal(cfg, steps)
    ensures |steps| <= 2 * |cfg.servers|
  {
    InvAlways(cfg, steps);
    StepsCount(cfg, steps);
    SubsetSize(Served(After(cfg, steps)), cfg.servers);
    SubsetSize(Spoken(After(cfg, steps)), cfg.servers);
  }

  lemma {:induction false} RunToTheEnd(cfg: Config, steps: seq<Step>) returns (whole: seq<Step>)
    requires WellFormed(cfg) && Acyclic(cfg) && OneDependent(cfg) && Legal(cfg, steps)
    ensures Legal(cfg, whole) && AllServing(After(cfg, whole))
    decreases 2 * |cfg.servers| - |steps|
  {
    if AllServing(After(cfg, steps)) {
      whole := steps;
    } else {
      var step := NoWaiterStuck(cfg, steps);
      assert (steps + [step])[..|steps|] == steps;
      RunsEnd(cfg, steps + [step]);
      whole := RunToTheEnd(cfg, steps + [step]);
    }
  }

  /** The place of an address in the order, if it has one. */
  function Place(order: seq<Address>, a: Address): (p: nat)
    ensures a in order ==> p < |order| && order[p] == a
  {
    if order == [] then 0 else if order[0] == a then 0 else 1 + Place(order[1..], a)
  }

  /** Once all serve, the order they came up in shows there was no cycle. */
  lemma AllServingAcyclic(cfg: Config, steps: seq<Step>)
    requires WellFormed(cfg) && Legal(cfg, steps) && AllServing(After(cfg, steps))
    ensures Acyclic(cfg)
  {
    InvAlways(cfg, steps);
    var order := After(cfg, steps).order;
    var rank := (a: Address) => Place(order, a);
    forall a, j | a in cfg.servers && 0 <= j < |cfg.Deps(a)| ensures rank(cfg.Deps(a)[j]) < rank(a) {
      assert a in order && cfg.Deps(a)[j] in cfg.servers;
      assert cfg.Deps(a)[j] in order;
      var q := ServesAfterDependencies(cfg, steps, Place(order, a), j);
      assert order[Place(order, cfg.Deps(a)[j])] == order[q];
    }
    assert IsRank(cfg, rank);
  }

  /** And every signal that was waited for has reached its one receiver. */
  lemma AllServingOneDependent(cfg: Config, steps: seq<Step>)
    requires WellFormed(cfg) && Legal(cfg, steps) && AllServing(After(cfg, steps))
    ensures OneDependent(cfg)
  {
    InvAlways(cfg, steps);
    var s := After(cfg, steps);
    forall b, c, i, j | b in cfg.servers && c in cfg.servers && 0 <= i < |cfg.Deps(b)| && 0 <= j < |cfg.Deps(c)|
                        && cfg.Deps(b)[i] == cfg.Deps(c)[j]
      ensures b == c
    {
      assert s.phase[cfg.Deps(b)[i]] == Signalled(b) && s.phase[cfg.Deps(c)[j]] == Signalled(c);
    }
  }

  ghost predicate CanComplete(cfg: Config) {
    exists steps :: Legal(cfg, steps) && AllServing(After(cfg, steps))
  }

  /**
   Start-up can complete if and only if the dependency map has no cycle and no address with two
   dependents; and then it does complete, whichever steps are taken, until none is left.
   */
  lemma StartupCompletesIff(cfg: Config)
    requires WellFormed(cfg)
    ensures CanComplete(cfg) <==> Acyclic(cfg) && OneDependent(cfg)
    ensures Acyclic(cfg) && OneDependent(cfg) ==>
            forall steps :: Legal(cfg, steps) && (forall step :: !Enabled(cfg, After(cfg, steps), step))
              ==> AllServing(After(cfg, steps))
  {
    if Acyclic(cfg) && OneDependent(cfg) {
      var whole := RunToTheEnd(cfg, []);
      assert CanComplete(cfg);
      forall steps | Legal(cfg, steps) && (forall step :: !Enabled(cfg, After(cfg, steps), step))
        ensures AllServing(After(cfg, steps))
      {
        if !AllServing(After(cfg, steps)) {
          var step := NoWaiterStuck(cfg, steps);
        }
      }
    }
    if CanComplete(cfg) {
      var steps :| Legal(cfg, steps) && AllServing(After(cfg, steps));
      AllServingAcyclic(cfg, steps);
      AllServingOneDependent(cfg, steps);
    }
  }

  /** Two servers that depend on a third, without any cycle: start-up never completes. */
  lemma TwoDependentsHang()
    ensures var cfg := Config({"a", "b", "c"}, map["a" := ["c"], "b" := ["c"]]);
            WellFormed(cfg) && Acyclic(cfg) && !CanComplete(cfg)
  {
    var cfg := Config({"a", "b", "c"}, map["a" := ["c"], "b" := ["c"]]);
    assert cfg.Deps("a") == ["c"] && cfg.Deps("b") == ["c"] && cfg.Deps("c") == [];
    var rank := (x: Address) => if x == "c" then 0 else 1;
    assert IsRank(cfg, rank);
    assert cfg.Deps("a")[0] == cfg.Deps("b")[0];
    StartupCompletesIff(cfg);
  }
}

/**
 Choosing the policy package a request is evaluated against
 (internal/runtime/bundles.go, daemon/authorizer/impl/access.go).
 */
module Policy {
  import opened Wrappers
  import opened Order
  import opened Text

  const DOELBINDING := "doelbinding"

  datatype Error = BadRuntime | NoPolicyLoaded | RootNotLoaded | SeveralLoaded | UnknownDoelbinding

  // ---- What is loaded ----

  /** The distinct package names in a store listing; an entry may fail to parse. */
  function Loaded(listing: seq<Result<string, ()>>): set<string> {
    set i | 0 <= i < |listing| && listing[i].Ok? && listing[i].value != "" :: listing[i].value
  }

  /** A set in ascending order, as `slices.Sort` leaves a list without duplicates. */
  function Sorted(s: set<string>): seq<string>
    decreases |s|
  {
    if s == {} then [] else
    var k := Least(s);
    [k] + Sorted(s - {k})
  }

  lemma {:induction false} SortedMembers(s: set<string>, x: string)
    ensures x in Sorted(s) <==> x in s
    decreases |s|
  {
    if s != {} {
      SortedMembers(s - {Least(s)}, x);
    }
  }

  lemma {:induction false} SortedAscending(s: set<string>, i: nat, j: nat)
    requires i < j < |Sorted(s)|
    ensures Less(Sorted(s)[i], Sorted(s)[j])
    decreases |s|
  {
    var k := Least(s);
    if i > 0 {
      SortedAscending(s - {k}, i - 1, j - 1);
    } else {
      assert Sorted(s)[j] == Sorted(s - {k})[j - 1];
      SortedMembers(s - {k}, Sorted(s)[j]);
    }
  }

  /** `GetPolicyPackages`: the result depends on which packages are loaded, not on how the store lists them. */
  method GetPolicyPackages(listing: seq<Result<string, ()>>) returns (r: Result<seq<string>, Error>)
    ensures r.Ok? <==> forall i :: 0 <= i < |listing| ==> listing[i].Ok?
    ensures r.Ok? ==> r.value == Sorted(Loaded(listing))
    ensures r.Ok? ==> forall x :: x in r.value <==> x != "" && Ok(x) in listing
    ensures r.Ok? ==> forall i, j :: 0 <= i < j < |r.value| ==> Less(r.value[i], r.value[j])
  {
    var packages: seq<string> := [];
    for i := 0 to |listing|
      invariant forall j :: 0 <= j < i ==> listing[j].Ok?
      invariant forall x :: x in packages <==> x in Loaded(listing[..i])
    {
      if listing[i].Err? {
        return Err(BadRuntime);
      }
      var pkg := listing[i].value;
      ghost var before := packages;
      if pkg != "" && pkg !in packages {
        packages := packages + [pkg];
      }
      forall x ensures x in Loaded(listing[..i + 1]) <==> x in Loaded(listing[..i]) || (x == pkg && pkg != "") {
        LoadedNext(listing, i, x);
      }
    }
    assert listing[..|listing|] == listing;
    assert (set p | p in packages) == Loaded(listing);
    r := Ok(Sorted(set p | p in packages));
    forall x ensures x in r.value <==> x != "" && Ok(x) in listing {
      SortedMembers(Loaded(listing), x);
    }
    forall i, j | 0 <= i < j < |r.value| ensures Less(r.value[i], r.value[j]) {
      SortedAscending(Loaded(listing), i, j);
    }
  }

  lemma LoadedNext(listing: seq<Result<string, ()>>, i: nat, x: string)
    requires i < |listing| && listing[i].Ok?
    ensures x in Loaded(listing[..i + 1]) <==> x in Loaded(listing[..i]) || (x == listing[i].value && x != "")
  {
    var shorter, longer := listing[..i], listing[..i + 1];
    if x in Loaded(shorter) {
      var j :| 0 <= j < i && shorter[j].Ok? && shorter[j].value == x && x != "";
      assert longer[j] == shorter[j];
    }
    if x == listing[i].value && x != "" {
      assert longer[i] == listing[i];
    }
    if x in Loaded(longer) {
      var j :| 0 <= j < i + 1 && longer[j].Ok? && longer[j].value == x && x != "";
      assert j < i ==> shorter[j] == longer[j];
    }
  }

  // ---- Roots ----

  /** The text before the first dot. */
  function RootOf(pkg: string): (root: string)
    ensures '.' !in root
    ensures pkg == root || root + "." <= pkg
  {
    if pkg == "" || pkg[0] == '.' then ""
    else
      var rest := RootOf(pkg[1..]);
      assert pkg == [pkg[0]] + pkg[1..];
      [pkg[0]] + rest
  }

  ghost predicate IsRoot(packages: seq<string>, n: nat, root: string)
    requires n <= |packages|
  {
    root != "" && exists i :: 0 <= i < n && RootOf(packages[i]) == root
  }

  /** `PolicyRoots` */
  method PolicyRoots(packages: seq<string>) returns (roots: seq<string>)
    ensures NoDuplicates(roots)
    ensures forall x :: x in roots <==> IsRoot(packages, |packages|, x)
  {
    roots := [];
    for i := 0 to |packages|
      invariant NoDuplicates(roots)
      invariant forall x :: x in roots <==> IsRoot(packages, i, x)
    {
      var root := RootOf(packages[i]);
      if root != "" && root !in roots {
        roots := roots + [root];
      }
    }
  }

  /** `defaultPolicyRoots` */
  method DefaultPolicyRoots(packages: seq<string>) returns (roots: seq<string>)
    ensures NoDuplicates(roots)
    ensures forall x :: x in roots <==> x != DOELBINDING && IsRoot(packages, |packages|, x)
  {
    var all := PolicyRoots(packages);
    roots := [];
    for i := 0 to |all|
      invariant NoDuplicates(roots)
      invariant forall x :: x in roots <==> x != DOELBINDING && x in all[..i]
    {
      assert all[i] !in all[..i];
      if all[i] != DOELBINDING {
        roots := roots + [all[i]];
      }
    }
    assert all[..|all|] == all;
  }

  /** The roots a request that selects nothing can be served from. */
  function DefaultRoots(loaded: set<string>): set<string> {
    set p | p in loaded && RootOf(p) != "" && RootOf(p) != DOELBINDING :: RootOf(p)
  }

  /** The choice among a set of roots. */
  function ChooseRoot(roots: set<string>, configured: string): Result<string, Error> {
    if roots == {} then Err(NoPolicyLoaded)
    else if configured != "" then (if configured in roots then Ok(configured) else Err(RootNotLoaded))
    else if |roots| == 1 then Ok(Least(roots))
    else Err(SeveralLoaded)
  }

  lemma {:induction false} CountOf(roots: seq<string>)
    requires NoDuplicates(roots)
    ensures |set x | x in roots| == |roots|
    decreases |roots|
  {
    if roots != [] {
      var n := |roots| - 1;
      CountOf(roots[..n]);
      assert roots == roots[..n] + [roots[n]];
      assert (set x | x in roots) == (set x | x in roots[..n]) + {roots[n]};
    }
  }

  /** `SelectPolicyRoot` */
  method SelectPolicyRoot(roots: seq<string>, configured: string) returns (r: Result<string, Error>)
    requires NoDuplicates(roots)
    ensures r == ChooseRoot((set x | x in roots), configured)
  {
    CountOf(roots);
    ghost var asSet := set x | x in roots;
    if |roots| == 0 {
      return Err(NoPolicyLoaded);
    }
    assert roots[0] in asSet;
    if configured != "" {
      if configured !in roots {
        return Err(RootNotLoaded);
      }
      return Ok(configured);
    }
    if |roots| == 1 {
      assert roots == [roots[0]];
      return Ok(roots[0]);
    }
    return Err(SeveralLoaded);
  }

  // ---- The choice ----

  /** What a request is evaluated against, as a function of the set of loaded packages alone. */
  function PathFor(loaded: set<string>, configured: string, selected: string): Result<string, Error> {
    if selected == "" then ChooseRoot(DefaultRoots(loaded), configured)
    else if DOELBINDING + "." + selected in loaded then Ok(DOELBINDING + "." + selected)
    else Err(UnknownDoelbinding)
  }

  /**
   `policyPath`: the package chosen depends only on the set of loaded packages, the configured root and the selected
   doelbinding; the order and the repetitions of the store listing make no difference.
   */
  method PolicyPath(listing: seq<Result<string, ()>>, configured: string, selected: string)
    returns (r: Result<string, Error>)
    ensures r == if forall i :: 0 <= i < |listing| ==> listing[i].Ok?
                 then PathFor(Loaded(listing), configured, selected) else Err(BadRuntime)
  {
    var packages := GetPolicyPackages(listing);
    if packages.Err? {
      return Err(BadRuntime);
    }
    ghost var loaded := Loaded(listing);
    forall x ensures x in packages.value <==> x in loaded { SortedMembers(loaded, x); }
    if selected == "" {
      var roots := DefaultPolicyRoots(packages.value);
      assert (set x | x in roots) == DefaultRoots(loaded) by {
        forall x ensures x in roots <==> x in DefaultRoots(loaded) {
          if x in DefaultRoots(loaded) {
            var p :| p in loaded && RootOf(p) == x && x != "" && x != DOELBINDING;
            assert p in packages.value;
          }
        }
      }
      r := SelectPolicyRoot(roots, configured);
    } else {
      var path := DOELBINDING + "." + selected;
      if path !in packages.value {
        return Err(UnknownDoelbinding);
      }
      r := Ok(path);
    }
  }

  /** A selection is answered with the package it names, if that is loaded, and with an error otherwise. */
  lemma SelectedIsServed(loaded: set<string>, configured: string, selected: string)
    requires selected != ""
    ensures DOELBINDING + "." + selected in loaded ==>
              PathFor(loaded, configured, selected) == Ok(DOELBINDING + "." + selected)
    ensures DOELBINDING + "." + selected !in loaded ==> PathFor(loaded, configured, selected) == Err(UnknownDoelbinding)
  {
  }

  /** A loaded package a request without a selection can be served from. */
  ghost predicate Serves(loaded: set<string>, p: string, root: string) {
    p in loaded && RootOf(p) == root && root != "" && root != DOELBINDING
  }

  lemma DefaultRootsIff(loaded: set<string>, root: string)
    ensures root in DefaultRoots(loaded) <==> exists p :: Serves(loaded, p, root)
  {
    if root in DefaultRoots(loaded) {
      var p :| p in loaded && RootOf(p) == root;
      assert Serves(loaded, p, root);
    }
  }

  lemma SoleRoot(roots: set<string>, x: string)
    requires x in roots
    ensures |roots| == 1 <==> forall y :: y in roots ==> y == x
  {
    var rest := roots - {x};
    assert roots == rest + {x} && |roots| == |rest| + 1;
    if |roots| != 1 {
      var y :| y in rest;
    } else {
      assert rest == {};
    }
  }

  /**
   Without a selection: an error if no package serves; the configured root if one is configured and a
   package serves it, and otherwise an error; with none configured the only root there is, or an error.
   */
  lemma DefaultIsServed(loaded: set<string>, configured: string, root: string, p: string)
    requires Serves(loaded, p, root)
    ensures configured == root ==> PathFor(loaded, configured, "") == Ok(root)
    ensures configured != "" && (forall q :: !Serves(loaded, q, configured)) ==>
              PathFor(loaded, configured, "") == Err(RootNotLoaded)
    ensures configured == "" && (forall q, other :: Serves(loaded, q, other) ==> other == root) ==>
              PathFor(loaded, configured, "") == Ok(root)
    ensures configured == "" && (exists q, other :: Serves(loaded, q, other) && other != root) ==>
              PathFor(loaded, configured, "") == Err(SeveralLoaded)
  {
    var roots := DefaultRoots(loaded);
    DefaultRootsIff(loaded, root);
    DefaultRootsIff(loaded, configured);
    SoleRoot(roots, root);
    if exists q, other :: Serves(loaded, q, other) && other != root {
      var q, other :| Serves(loaded, q, other) && other != root;
      DefaultRootsIff(loaded, other);
    }
    if forall q, other :: Serves(loaded, q, other) ==> other == root {
      forall y | y in roots ensures y == root { DefaultRootsIff(loaded, y); }
    }
  }

  lemma NothingServes(loaded: set<string>, configured: string)
    requires forall p, root :: !Serves(loaded, p, root)
    ensures PathFor(loaded, configured, "") == Err(NoPolicyLoaded)
  {
    forall y ensures y !in DefaultRoots(loaded) { DefaultRootsIff(loaded, y); }
  }

  /**
   A request that selects a doelbinding gets a loaded package under the doelbinding namespace and nothing
   else; one that selects nothing never gets into that namespace, nor its bare root.
   */
  lemma SelectionConfined(loaded: set<string>, configured: string, selected: string)
    requires PathFor(loaded, configured, selected).Ok?
    ensures var path := PathFor(loaded, configured, selected).value;
            && (selected != "" ==> path in loaded && DOELBINDING + "." <= path)
            && (selected == "" ==> path != DOELBINDING && !(DOELBINDING + "." <= path)
                                   && exists p :: p in loaded && RootOf(p) == path)
  {
    var path := PathFor(loaded, configured, selected).value;
    if selected == "" {
      assert path in DefaultRoots(loaded);
      var p :| p in loaded && RootOf(p) == path;
      assert '.' !in path && (DOELBINDING + ".")[|DOELBINDING|] == '.';
    }
  }
}

/** Choosing the packages to pin: everything that the seeds need, through aliases and versioned dependencies. */
module PackageClosure {
  import opened OptionalValues

  type Name = string

  /** One package description of the repository database. */
  datatype Package = Package(name: Name, aliases: seq<string>, dependsOn: seq<string>)

  /** Packages by name, and which package provides an alias. */
  datatype Catalog = Catalog(packages: map<Name, Package>, providers: map<Name, Name>) {
    /** Aliases stand for packages that there are. */
    ghost predicate Valid() {
      forall alias :: alias in providers ==> providers[alias] in packages
    }

    function Resolve(name: Name): (r: Option<Name>)
      ensures Valid() && r.Some? ==> r.value in packages
    {
      if name in packages then Some(name)
      else if name in providers then Some(providers[name])
      else None
    }

    /** A dependency of the package asks for `name`. */
    predicate Needs(package: Name, name: Name) {
      package in packages && name in Dependencies(packages[package])
    }
  }

  predicate IsRelation(c: char) {
    c == '<' || c == '>' || c == '='
  }

  /** The name in front of a version relation. */
  function BaseName(value: string): (base: Name)
    ensures base <= value
    ensures forall c :: c in base ==> c != '<' && c != '>' && c != '='
    ensures |base| < |value| ==> value[|base|] == '<' || value[|base|] == '>' || value[|base|] == '='
  {
    if value == "" || IsRelation(value[0]) then "" else [value[0]] + BaseName(value[1..])
  }

  function Dependencies(package: Package): seq<Name> {
    seq(|package.dependsOn|, i requires 0 <= i < |package.dependsOn| => BaseName(package.dependsOn[i]))
  }

  /** Later packages take aliases over, and replace packages of the same name. */
  function CatalogOf(descriptions: seq<Package>): (c: Catalog)
    ensures c.Valid()
  {
    if descriptions == [] then Catalog(map[], map[])
    else
      var earlier := CatalogOf(descriptions[..|descriptions| - 1]);
      var last := descriptions[|descriptions| - 1];
      Catalog(earlier.packages[last.name := last], WithAliases(earlier.providers, last, |last.aliases|))
  }

  function WithAliases(providers: map<Name, Name>, package: Package, count: nat): (r: map<Name, Name>)
    requires count <= |package.aliases|
    ensures forall alias :: alias in r ==>
              r[alias] == package.name || (alias in providers && r[alias] == providers[alias])
  {
    if count == 0 then providers
    else WithAliases(providers, package, count - 1)[BaseName(package.aliases[count - 1]) := package.name]
  }

  method ReadCatalog(descriptions: seq<Package>) returns (catalog: Catalog)
    ensures catalog == CatalogOf(descriptions)
  {
    var packages, providers := map[], map[];
    for i := 0 to |descriptions|
      invariant Catalog(packages, providers) == CatalogOf(descriptions[..i])
    {
      assert descriptions[..i + 1][..i] == descriptions[..i];
      var package := descriptions[i];
      ghost var before := providers;
      packages := packages[package.name := package];
      for k := 0 to |package.aliases|
        invariant providers == WithAliases(before, package, k)
      {
        providers := providers[BaseName(package.aliases[k]) := package.name];
      }
    }
    assert descriptions[..|descriptions|] == descriptions;
    catalog := Catalog(packages, providers);
  }

  /** One of the first `count` aliases of the package is `alias`. */
  predicate GivesAlias(package: Package, count: nat, alias: Name)
    requires count <= |package.aliases|
  {
    count > 0 && (BaseName(package.aliases[count - 1]) == alias || GivesAlias(package, count - 1, alias))
  }

  lemma {:induction false} AliasesOfOne(providers: map<Name, Name>, package: Package, count: nat, alias: Name)
    requires count <= |package.aliases|
    ensures var r := WithAliases(providers, package, count);
      && (alias in r <==> GivesAlias(package, count, alias) || alias in providers)
      && (alias in r ==> r[alias] == if GivesAlias(package, count, alias) then package.name else providers[alias])
  {
    hide BaseName;
    if count > 0 {
      AliasesOfOne(providers, package, count - 1, alias);
    }
  }

  /** For each name and each alias, the last description that gives it counts. */
  lemma {:induction false} LastDescriptionCounts(descriptions: seq<Package>, i: nat, name: Name)
    requires i < |descriptions|
    ensures var c := CatalogOf(descriptions);
      && (descriptions[i].name == name && (forall j :: i < j < |descriptions| ==> descriptions[j].name != name) ==>
            name in c.packages && c.packages[name] == descriptions[i])
      && (GivesAlias(descriptions[i], |descriptions[i].aliases|, name)
          && (forall j :: i < j < |descriptions| ==> !GivesAlias(descriptions[j], |descriptions[j].aliases|, name)) ==>
            name in c.providers && c.providers[name] == descriptions[i].name)
    decreases |descriptions|
  {
    var front, last := descriptions[..|descriptions| - 1], descriptions[|descriptions| - 1];
    AliasesOfOne(CatalogOf(front).providers, last, |last.aliases|, name);
    if i < |front| {
      LastDescriptionCounts(front, i, name);
    }
  }

  /** The last of the descriptions that gives the alias. */
  ghost predicate IsLastToGive(descriptions: seq<Package>, i: nat, alias: Name) {
    && i < |descriptions| && GivesAlias(descriptions[i], |descriptions[i].aliases|, alias)
    && forall j :: i < j < |descriptions| ==> !GivesAlias(descriptions[j], |descriptions[j].aliases|, alias)
  }

  lemma {:induction false} PackagesAreDescribed(descriptions: seq<Package>, name: Name)
    ensures name in CatalogOf(descriptions).packages <==>
            exists i :: 0 <= i < |descriptions| && descriptions[i].name == name
    decreases |descriptions|
  {
    hide WithAliases;
    if descriptions != [] {
      PackagesAreDescribed(descriptions[..|descriptions| - 1], name);
    }
  }

  lemma {:induction false} AliasesAreGiven(descriptions: seq<Package>, name: Name)
    ensures name in CatalogOf(descriptions).providers ==> exists i: nat :: IsLastToGive(descriptions, i, name)
    decreases |descriptions|
  {
    hide GivesAlias, WithAliases;
    if descriptions != [] {
      var n := |descriptions| - 1;
      var front, last := descriptions[..n], descriptions[n];
      AliasesAreGiven(front, name);
      AliasesOfOne(CatalogOf(front).providers, last, |last.aliases|, name);
      if GivesAlias(last, |last.aliases|, name) {
        assert IsLastToGive(descriptions, n, name);
      } else if name in CatalogOf(front).providers {
        var i: nat :| IsLastToGive(front, i, name);
        assert IsLastToGive(descriptions, i, name);
      }
    }
  }

  /**
   A name stands for the package of that very name, if there is one, and otherwise for the package that gives it as an
   alias, the last one if there are several. Names that nobody gives stand for nothing.
   */
  lemma NamesStandForPackages(descriptions: seq<Package>, name: Name)
    ensures var target := CatalogOf(descriptions).Resolve(name);
      if exists i :: 0 <= i < |descriptions| && descriptions[i].name == name then target == Some(name)
      else
        && (forall i: nat :: IsLastToGive(descriptions, i, name) ==> target == Some(descriptions[i].name))
        && (target.Some? ==> exists i: nat :: IsLastToGive(descriptions, i, name))
  {
    PackagesAreDescribed(descriptions, name);
    AliasesAreGiven(descriptions, name);
    hide CatalogOf, GivesAlias;
    forall i: nat | IsLastToGive(descriptions, i, name)
      ensures name in CatalogOf(descriptions).providers
      ensures CatalogOf(descriptions).providers[name] == descriptions[i].name
    {
      LastDescriptionCounts(descriptions, i, name);
    }
  }

  // What is reachable

  /** From a seed to a package, each step to a package that a dependency of the one before resolves to. */
  ghost predicate IsPath(catalog: Catalog, seeds: seq<Name>, path: seq<Name>)
    decreases |path|
  {
    && path != []
    && var front, last := path[..|path| - 1], path[|path| - 1];
       if front == [] then exists seed :: seed in seeds && catalog.Resolve(seed) == Some(last)
       else
         && IsPath(catalog, seeds, front)
         && exists name :: catalog.Needs(front[|front| - 1], name) && catalog.Resolve(name) == Some(last)
  }

  ghost predicate IsReachable(catalog: Catalog, seeds: seq<Name>, package: Name) {
    exists path :: IsPath(catalog, seeds, path) && path[|path| - 1] == package
  }

  /** A seed, or a dependency of a reachable package. */
  ghost predicate IsRequested(catalog: Catalog, seeds: seq<Name>, name: Name) {
    name in seeds || exists package :: IsReachable(catalog, seeds, package) && catalog.Needs(package, name)
  }

  /** A seed, or a dependency of a package in `chosen`. */
  ghost predicate AsksFor(catalog: Catalog, seeds: seq<Name>, chosen: set<Name>, name: Name) {
    name in seeds || exists package :: package in chosen && catalog.Needs(package, name)
  }

  /** Whatever `chosen` asks for is still pending or resolves to a package in `chosen`. */
  ghost predicate ClosedUpTo(catalog: Catalog, seeds: seq<Name>, chosen: set<Name>, pending: seq<Name>) {
    forall name :: AsksFor(catalog, seeds, chosen, name) ==>
      name in pending || (catalog.Resolve(name).Some? && catalog.Resolve(name).value in chosen)
  }

  ghost predicate IsClosed(catalog: Catalog, seeds: seq<Name>, chosen: set<Name>) {
    ClosedUpTo(catalog, seeds, chosen, [])
  }

  /** The state of the worklist: chosen packages are reachable, pending names are requested, and nothing is missing. */
  ghost predicate IsProgress(catalog: Catalog, seeds: seq<Name>, chosen: map<Name, Package>, pending: seq<Name>) {
    && (forall name :: name in chosen ==>
          name in catalog.packages && chosen[name] == catalog.packages[name] && IsReachable(catalog, seeds, name))
    && (forall name :: name in pending ==> IsRequested(catalog, seeds, name))
    && ClosedUpTo(catalog, seeds, chosen.Keys, pending)
  }

  // The worklist

  /** `None` stands for the error that an unknown name raises. */
  method Choose(catalog: Catalog, seeds: seq<Name>) returns (result: Option<map<Name, Package>>)
    requires catalog.Valid()
    ensures result.None? <==> exists name :: IsRequested(catalog, seeds, name) && catalog.Resolve(name).None?
    ensures result.Some? ==> forall name :: name in result.value <==> IsReachable(catalog, seeds, name)
    ensures result.Some? ==> forall name :: name in result.value ==>
              name in catalog.packages && result.value[name] == catalog.packages[name]
    ensures result.Some? ==> IsClosed(catalog, seeds, result.value.Keys)
  {
    hide *;
    var chosen: map<Name, Package> := map[];
    var pending := seeds;
    SeedsArePending(catalog, seeds);
    while pending != []
      invariant IsProgress(catalog, seeds, chosen, pending)
      decreases |catalog.packages.Keys - chosen.Keys|, |pending|
    {
      var name := pending[|pending| - 1];
      LastIsPopped(pending);
      pending := pending[..|pending| - 1];
      var resolved := catalog.Resolve(name);
      if resolved.None? {
        LastIsRequested(catalog, seeds, chosen, pending, name);
        return None;
      }
      if resolved.value in chosen {
        PendingIsChosen(catalog, seeds, chosen, pending, name);
        continue;
      }
      var package := catalog.packages[resolved.value];
      PackageIsChosen(catalog, seeds, chosen, pending, name);
      FewerAreLeft(catalog.packages.Keys, chosen, resolved.value, package);
      chosen := chosen[resolved.value := package];
      pending := pending + Dependencies(package);
    }
    NothingIsMissing(catalog, seeds, chosen);
    return Some(chosen);
  }

  lemma LastIsPopped<T>(s: seq<T>)
    requires s != []
    ensures s == s[..|s| - 1] + [s[|s| - 1]]
  {
  }

  lemma SeedsArePending(catalog: Catalog, seeds: seq<Name>)
    ensures IsProgress(catalog, seeds, map[], seeds)
  {
  }

  lemma LastIsRequested(catalog: Catalog, seeds: seq<Name>, chosen: map<Name, Package>, pending: seq<Name>, name: Name)
    requires IsProgress(catalog, seeds, chosen, pending + [name])
    ensures IsRequested(catalog, seeds, name)
  {
    assert (pending + [name])[|pending|] == name;
  }

  lemma FewerAreLeft(all: set<Name>, chosen: map<Name, Package>, name: Name, package: Package)
    requires name in all && name !in chosen
    ensures |all - chosen[name := package].Keys| < |all - chosen.Keys|
  {
    assert all - chosen.Keys == (all - chosen[name := package].Keys) + {name};
  }

  lemma RequestedIsReachable(catalog: Catalog, seeds: seq<Name>, name: Name)
    requires IsRequested(catalog, seeds, name) && catalog.Resolve(name).Some?
    ensures IsReachable(catalog, seeds, catalog.Resolve(name).value)
  {
    var target := catalog.Resolve(name).value;
    if name in seeds {
      assert [target][..0] == [];
      assert IsPath(catalog, seeds, [target]);
    } else {
      var package :| IsReachable(catalog, seeds, package) && catalog.Needs(package, name);
      var path :| IsPath(catalog, seeds, path) && path[|path| - 1] == package;
      assert (path + [target])[..|path|] == path;
      assert IsPath(catalog, seeds, path + [target]);
    }
  }

  lemma DependenciesAreRequested(catalog: Catalog, seeds: seq<Name>, package: Name)
    requires IsReachable(catalog, seeds, package) && package in catalog.packages
    ensures forall name :: name in Dependencies(catalog.packages[package]) ==> IsRequested(catalog, seeds, name)
  {
    forall name | name in Dependencies(catalog.packages[package])
      ensures IsRequested(catalog, seeds, name)
    {
      assert catalog.Needs(package, name);
    }
  }

  /** A popped name that is already chosen leaves nothing to do. */
  lemma PendingIsChosen(catalog: Catalog, seeds: seq<Name>, chosen: map<Name, Package>, pending: seq<Name>, name: Name)
    requires IsProgress(catalog, seeds, chosen, pending + [name])
    requires catalog.Resolve(name).Some? && catalog.Resolve(name).value in chosen
    ensures IsProgress(catalog, seeds, chosen, pending)
  {
    hide IsReachable, IsRequested;
  }

  /** A popped name that is not chosen yet is chosen with its dependencies pending. */
  lemma PackageIsChosen(catalog: Catalog, seeds: seq<Name>, chosen: map<Name, Package>, pending: seq<Name>, name: Name)
    requires IsProgress(catalog, seeds, chosen, pending + [name])
    requires catalog.Resolve(name).Some? && catalog.Resolve(name).value in catalog.packages
    ensures var id := catalog.Resolve(name).value;
      var package := catalog.packages[id];
      IsProgress(catalog, seeds, chosen[id := package], pending + Dependencies(package))
  {
    hide IsReachable, IsRequested, ClosedUpTo;
    var id := catalog.Resolve(name).value;
    var package := catalog.packages[id];
    LastIsRequested(catalog, seeds, chosen, pending, name);
    RequestedIsReachable(catalog, seeds, name);
    DependenciesAreRequested(catalog, seeds, id);
    StaysClosed(catalog, seeds, chosen.Keys, pending, name);
    assert chosen[id := package].Keys == chosen.Keys + {id};
    assert forall other :: other in pending ==> other in pending + [name];
  }

  lemma StaysClosed(catalog: Catalog, seeds: seq<Name>, chosen: set<Name>, pending: seq<Name>, name: Name)
    requires ClosedUpTo(catalog, seeds, chosen, pending + [name])
    requires catalog.Resolve(name).Some? && catalog.Resolve(name).value in catalog.packages
    ensures var id := catalog.Resolve(name).value;
      ClosedUpTo(catalog, seeds, chosen + {id}, pending + Dependencies(catalog.packages[id]))
  {
    var id := catalog.Resolve(name).value;
    var more, after := chosen + {id}, pending + Dependencies(catalog.packages[id]);
    forall other | AsksFor(catalog, seeds, more, other)
      ensures other in after || (catalog.Resolve(other).Some? && catalog.Resolve(other).value in more)
    {
      if !AsksFor(catalog, seeds, chosen, other) {
        assert catalog.Needs(id, other);
      }
    }
  }

  /** Once nothing is pending, all reachable packages are chosen and all requested names resolve. */
  lemma NothingIsMissing(catalog: Catalog, seeds: seq<Name>, chosen: map<Name, Package>)
    requires IsProgress(catalog, seeds, chosen, [])
    ensures forall name :: name in chosen <==> IsReachable(catalog, seeds, name)
    ensures forall name :: name in chosen ==> name in catalog.packages && chosen[name] == catalog.packages[name]
    ensures forall name :: IsRequested(catalog, seeds, name) ==> catalog.Resolve(name).Some?
    ensures IsClosed(catalog, seeds, chosen.Keys)
  {
    hide IsReachable, IsRequested, ClosedUpTo;
    forall name | IsReachable(catalog, seeds, name)
      ensures name in chosen
    {
      ReachableIsLeast(catalog, seeds, chosen.Keys, name);
    }
    forall name | IsRequested(catalog, seeds, name)
      ensures catalog.Resolve(name).Some?
    {
      RequestedIsResolved(catalog, seeds, chosen.Keys, name);
    }
  }

  lemma {:induction false} PathStaysInside(catalog: Catalog, seeds: seq<Name>, chosen: set<Name>, path: seq<Name>)
    requires IsClosed(catalog, seeds, chosen) && IsPath(catalog, seeds, path)
    ensures path[|path| - 1] in chosen
    decreases |path|
  {
    var front := path[..|path| - 1];
    if front != [] {
      PathStaysInside(catalog, seeds, chosen, front);
      var name :| catalog.Needs(front[|front| - 1], name) && catalog.Resolve(name) == Some(path[|path| - 1]);
      assert AsksFor(catalog, seeds, chosen, name);
    } else {
      var seed :| seed in seeds && catalog.Resolve(seed) == Some(path[|path| - 1]);
      assert AsksFor(catalog, seeds, chosen, seed);
    }
  }

  /** Every closed set holds all reachable packages, so the reachable ones are the least closed set. */
  lemma ReachableIsLeast(catalog: Catalog, seeds: seq<Name>, chosen: set<Name>, package: Name)
    requires IsClosed(catalog, seeds, chosen) && IsReachable(catalog, seeds, package)
    ensures package in chosen
  {
    var path :| IsPath(catalog, seeds, path) && path[|path| - 1] == package;
    PathStaysInside(catalog, seeds, chosen, path);
  }

  lemma RequestedIsResolved(catalog: Catalog, seeds: seq<Name>, chosen: set<Name>, name: Name)
    requires IsClosed(catalog, seeds, chosen) && IsRequested(catalog, seeds, name)
    ensures catalog.Resolve(name).Some?
  {
    if name !in seeds {
      var package :| IsReachable(catalog, seeds, package) && catalog.Needs(package, name);
      ReachableIsLeast(catalog, seeds, chosen, package);
    }
    assert AsksFor(catalog, seeds, chosen, name);
  }
}

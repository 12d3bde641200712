/**
 * The feature-activation classification engine (src/resolver.rs).
 *
 * The resolved Cargo workspace is an abstract record: the resolved package set, and the
 * queries the engine asks of Cargo (activated features, whether a dependency is activated,
 * whether a dependency matches a package id, and the path from a package to the workspace
 * top, which is absent when Cargo built no resolve graph). From it the engine selects the
 * requested root package, classifies each feature, child token and optional dependency of a
 * package, decides whether a package is globally active, and exports the root together with
 * its direct normal dependencies.
 */
module Resolver {
  import opened Wrappers
  import opened Cmp
  import Seqs
  import Text
  import Cli
  import opened ExportInfo

  datatype DepKind = Normal | Development | Build

  datatype PackageId = PackageId(name: string, version: string)

  /** A declared dependency of a package: the dependency's package name, its version requirement, optionality and kind. */
  datatype Dependency = Dependency(packageName: string, versionReq: string, optional: bool, kind: DepKind)

  /** A feature name and its raw child tokens (`dep:x`, `x?/f`, `x/f`, or another feature's name). */
  type FeatureEntry = (string, seq<string>)

  /**
   * A package of the resolved set: its id, the feature table of its summary in the order the
   * table yields it, and its declared dependencies in declaration order.
   */
  datatype CargoPackage = CargoPackage(id: PackageId, features: seq<FeatureEntry>, dependencies: seq<Dependency>)

  /** One step of `path_to_top`: the kinds of the dependency edges it used, when it has any. */
  type PathStep = Option<seq<DepKind>>

  datatype WorkspaceResolve = WorkspaceResolve(
    packages: seq<CargoPackage>,
    activatedFeatures: PackageId -> Option<seq<string>>,
    isDepActivated: (PackageId, string) -> bool,
    matchesId: (Dependency, PackageId) -> bool,
    workspaceResolve: Option<PackageId -> seq<PathStep>>)

  datatype Error =
    | PackageNotFound(name: string)   // no package matches the requested name and version
    | InconsistentActivation          // active on its edge but not globally active
    | ResolveMissing                  // Cargo produced no resolve graph

  /** What `build_export_info` ends in; `Ambiguous` stands for the listing of candidates and `exit(1)`. */
  datatype Outcome =
    | Exported(info: ExportInfo)
    | Failed(error: Error)
    | Ambiguous(candidates: seq<PackageId>)

  // ---------------------------------------------------------------------------------------
  // Feature-name cleaning

  const DepMarker := "dep:"

  /** `s.replace("dep:", "")`: one left-to-right pass that drops every occurrence it meets. */
  function StripDepMarker(s: string): (r: string)
    ensures |r| <= |s|
    decreases |s|
  {
    if s == [] then []
    else if Text.StartsWith(s, DepMarker) then StripDepMarker(s[|DepMarker|..])
    else [s[0]] + StripDepMarker(s[1..])
  }

  /** The "no default features" qualifier `?` and the sub-feature separator `/`. */
  predicate IsQualifier(c: char)
  {
    c == '?' || c == '/'
  }

  /** `s` contains the marker somewhere. */
  predicate HasDepMarker(s: string)
  {
    exists k :: 0 <= k <= |s| && Text.StartsWith(s[k..], DepMarker)
  }

  /**
   * `clean_feature_name`: the token with every `dep:` removed, cut just before its first
   * qualifier. The split it takes the first piece of always has one, so the program's
   * `expect` cannot fire.
   */
  function CleanFeatureName(name: string): (r: string)
    ensures '?' !in r && '/' !in r
    ensures r <= StripDepMarker(name)
    ensures |r| < |StripDepMarker(name)| ==> IsQualifier(StripDepMarker(name)[|r|])
  {
    var pieces := Text.Split(StripDepMarker(name), IsQualifier);
    assert Text.NoSeparator(pieces[0], IsQualifier);
    pieces[0]
  }

  /** A string without the marker is left as it is by the removal. */
  lemma {:induction false} StripWithoutMarker(s: string)
    requires !HasDepMarker(s)
    ensures StripDepMarker(s) == s
    decreases |s|
  {
    if s != [] {
      assert s[0..] == s;
      assert !HasDepMarker(s[1..]) by {
        forall k | 0 <= k <= |s[1..]| ensures !Text.StartsWith(s[1..][k..], DepMarker) {
          assert s[1..][k..] == s[k + 1..];
        }
      }
      StripWithoutMarker(s[1..]);
    }
  }

  /**
   * The marker cannot overlap itself, so text without the marker is kept as it is up to the
   * first marker, which is dropped, and the removal goes on after it.
   */
  lemma {:induction false} StripAroundMarker(a: string, b: string)
    requires !HasDepMarker(a)
    ensures StripDepMarker(a + DepMarker + b) == a + StripDepMarker(b)
    decreases |a|
  {
    var s := a + DepMarker + b;
    if a == [] {
      assert s == DepMarker + b;
      assert s[..|DepMarker|] == DepMarker && s[|DepMarker|..] == b;
    } else {
      assert a[0..] == a;
      assert !Text.StartsWith(s, DepMarker) by {
        if |a| >= |DepMarker| {
          assert s[..|DepMarker|] == a[..|DepMarker|];
        } else {
          assert s[|a|] == 'd' && DepMarker[|a|] != 'd';
        }
      }
      assert s[1..] == a[1..] + DepMarker + b;
      assert !HasDepMarker(a[1..]) by {
        forall k | 0 <= k <= |a[1..]| ensures !Text.StartsWith(a[1..][k..], DepMarker) {
          assert a[1..][k..] == a[k + 1..];
        }
      }
      StripAroundMarker(a[1..], b);
      assert [a[0]] + a[1..] == a;
    }
  }

  /** A string holding the marker gets shorter. */
  lemma {:induction false} StripShrinksMarked(s: string)
    requires HasDepMarker(s)
    ensures |StripDepMarker(s)| < |s|
    decreases |s|
  {
    var k :| 0 <= k <= |s| && Text.StartsWith(s[k..], DepMarker);
    assert s[0..] == s;
    if !Text.StartsWith(s, DepMarker) {
      assert s[1..][k - 1..] == s[k..];
      StripShrinksMarked(s[1..]);
    }
  }

  /** The removal leaves a string unchanged exactly when the marker does not occur in it. */
  lemma StripUnchangedIff(s: string)
    ensures StripDepMarker(s) == s <==> !HasDepMarker(s)
  {
    if HasDepMarker(s) {
      StripShrinksMarked(s);
    } else {
      StripWithoutMarker(s);
    }
  }

  /** The marker in front of a plain name is removed, and cleaning gives the name back. */
  lemma CleanMarkedName(n: string)
    requires !HasDepMarker(n) && '?' !in n && '/' !in n
    ensures CleanFeatureName(DepMarker + n) == n
    ensures CleanFeatureName(n) == n
  {
    StripWithoutMarker(n);
    assert (DepMarker + n)[|DepMarker|..] == n;
    assert Text.NoSeparator(n, IsQualifier);
  }

  /** The removal is a single pass: removing one marker can join the text around it into a new one. */
  lemma StripIsSinglePass()
    ensures StripDepMarker("ddep:ep:") == "dep:"
    ensures HasDepMarker(StripDepMarker("ddep:ep:"))
  {
    assert Text.StartsWith("dep:ep:", DepMarker);
    assert "ddep:ep:"[1..] == "dep:ep:" && "dep:ep:"[4..] == "ep:";
    assert "ddep:ep:"[1] != DepMarker[1];
    assert !HasDepMarker("ep:") by {
      forall k | 0 <= k <= 3 ensures !Text.StartsWith("ep:"[k..], DepMarker) { }
    }
    StripWithoutMarker("ep:");
    assert "dep:"[0..] == "dep:";
  }

  // ---------------------------------------------------------------------------------------
  // Global activation

  datatype Counts = Counts(normal: nat, build: nat, dev: nat)

  function Add(c: Counts, k: DepKind): Counts
  {
    match k
    case Normal => c.(normal := c.normal + 1)
    case Development => c.(dev := c.dev + 1)
    case Build => c.(build := c.build + 1)
  }

  function Count(c: Counts, k: DepKind): nat
  {
    match k
    case Normal => c.normal
    case Development => c.dev
    case Build => c.build
  }

  /** The counters after tallying the edge kinds `kinds` on top of `c`. */
  function CountStep(c: Counts, kinds: seq<DepKind>): Counts
    decreases |kinds|
  {
    if kinds == [] then c else Add(CountStep(c, kinds[..|kinds| - 1]), kinds[|kinds| - 1])
  }

  /** The counters after tallying every edge of every step of `path`; steps without edges add nothing. */
  function Tally(path: seq<PathStep>): Counts
    decreases |path|
  {
    if path == [] then Counts(0, 0, 0)
    else match path[|path| - 1]
      case None => Tally(path[..|path| - 1])
      case Some(kinds) => CountStep(Tally(path[..|path| - 1]), kinds)
  }

  /** Some step of `path` uses an edge of kind `k`. */
  predicate HasEdge(path: seq<PathStep>, k: DepKind)
  {
    exists i :: 0 <= i < |path| && path[i].Some? && k in path[i].value
  }

  /** The two-branch rule applied to the counters. */
  function Decide(c: Counts): bool
  {
    if c.build > 0 || c.dev > 0 then c.normal > 0 else true
  }

  /** What `is_globally_active` returns; the loops of `IsGloballyActive` compute it. */
  function GloballyActive(ws: WorkspaceResolve, id: PackageId): (r: Result<bool, Error>)
    ensures r.Err? <==> ws.workspaceResolve.None?
    ensures r.Err? ==> r.error == ResolveMissing
  {
    match ws.workspaceResolve
    case None => Err(ResolveMissing)
    case Some(pathToTop) => Ok(Decide(Tally(pathToTop(id))))
  }

  lemma {:induction false} CountStepAdds(c: Counts, kinds: seq<DepKind>, k: DepKind)
    ensures Count(CountStep(c, kinds), k) == Count(c, k) + multiset(kinds)[k]
    decreases |kinds|
  {
    if kinds != [] {
      var init := kinds[..|kinds| - 1];
      assert kinds == init + [kinds[|kinds| - 1]];
      CountStepAdds(c, init, k);
    }
  }

  /** A counter is positive exactly when the path uses an edge of its kind. */
  lemma {:induction false} CountPositiveIff(path: seq<PathStep>, k: DepKind)
    ensures Count(Tally(path), k) > 0 <==> HasEdge(path, k)
    decreases |path|
  {
    if path != [] {
      var init := path[..|path| - 1];
      var last := path[|path| - 1];
      CountPositiveIff(init, k);
      assert HasEdge(path, k) <==> HasEdge(init, k) || (last.Some? && k in last.value) by {
        if HasEdge(path, k) {
          var i :| 0 <= i < |path| && path[i].Some? && k in path[i].value;
          if i < |path| - 1 { assert init[i] == path[i]; }
        }
        if HasEdge(init, k) {
          var i :| 0 <= i < |init| && init[i].Some? && k in init[i].value;
          assert path[i] == init[i];
        }
      }
      if last.Some? {
        CountStepAdds(Tally(init), last.value, k);
      }
    }
  }

  /**
   * A package is globally active exactly when the path `path_to_top` gives for it uses a normal
   * edge, or uses no development and no build edge at all.
   */
  lemma GloballyActiveMeaning(ws: WorkspaceResolve, id: PackageId)
    requires ws.workspaceResolve.Some?
    ensures var path := ws.workspaceResolve.value(id);
      GloballyActive(ws, id) == Ok(HasEdge(path, Normal) || !(HasEdge(path, Development) || HasEdge(path, Build)))
  {
    var path := ws.workspaceResolve.value(id);
    CountPositiveIff(path, Normal);
    CountPositiveIff(path, Development);
    CountPositiveIff(path, Build);
  }

  /** A package whose `path_to_top` path uses development or build edges and no normal edge is not globally active. */
  lemma DevOrBuildOnlyIsInactive(ws: WorkspaceResolve, id: PackageId)
    requires ws.workspaceResolve.Some?
    requires var path := ws.workspaceResolve.value(id);
      !HasEdge(path, Normal) && (HasEdge(path, Development) || HasEdge(path, Build))
    ensures GloballyActive(ws, id) == Ok(false)
  {
    GloballyActiveMeaning(ws, id);
  }

  /** A package whose `path_to_top` path uses some normal edge is globally active, whatever other edges that path uses. */
  lemma NormalEdgeIsActive(ws: WorkspaceResolve, id: PackageId)
    requires ws.workspaceResolve.Some? && HasEdge(ws.workspaceResolve.value(id), Normal)
    ensures GloballyActive(ws, id) == Ok(true)
  {
    GloballyActiveMeaning(ws, id);
  }

  /**
   * A `path_to_top` path none of whose steps carries edges (a path made only of the package's
   * own edge-less first step, for instance) means globally active.
   */
  lemma EdgeFreePathIsActive(ws: WorkspaceResolve, id: PackageId)
    requires ws.workspaceResolve.Some?
    requires forall i :: 0 <= i < |ws.workspaceResolve.value(id)| ==> ws.workspaceResolve.value(id)[i].None?
    ensures GloballyActive(ws, id) == Ok(true)
  {
    GloballyActiveMeaning(ws, id);
  }

  /** Steps without edges contribute nothing, wherever they stand on the path. */
  lemma {:induction false} TallyIgnoresEmptyStep(before: seq<PathStep>, after: seq<PathStep>)
    ensures Tally(before + [None] + after) == Tally(before + after)
    decreases |after|
  {
    if after == [] {
      assert before + [None] + after == before + [None];
      assert (before + [None])[..|before|] == before;
      assert before + after == before;
    } else {
      var init := after[..|after| - 1];
      var p := before + [None] + after;
      var q := before + after;
      assert p[..|p| - 1] == before + [None] + init && p[|p| - 1] == after[|after| - 1];
      assert q[..|q| - 1] == before + init && q[|q| - 1] == after[|after| - 1];
      TallyIgnoresEmptyStep(before, init);
    }
  }

  /** `is_globally_active`: tallies the edge kinds along `path_to_top` in three counters. */
  method IsGloballyActive(ws: WorkspaceResolve, id: PackageId) returns (r: Result<bool, Error>)
    ensures r == GloballyActive(ws, id)
  {
    var normalCount: nat, buildCount: nat, devCount: nat := 0, 0, 0;
    if ws.workspaceResolve.None? {
      return Err(ResolveMissing);
    }
    var path := ws.workspaceResolve.value(id);
    var i := 0;
    while i < |path|
      invariant 0 <= i <= |path|
      invariant Counts(normalCount, buildCount, devCount) == Tally(path[..i])
    {
      assert path[..i + 1][..i] == path[..i];
      match path[i] {
        case Some(kinds) =>
          var j := 0;
          while j < |kinds|
            invariant 0 <= j <= |kinds|
            invariant Counts(normalCount, buildCount, devCount) == CountStep(Tally(path[..i]), kinds[..j])
          {
            assert kinds[..j + 1][..j] == kinds[..j];
            match kinds[j] {
              case Normal => normalCount := normalCount + 1;
              case Development => devCount := devCount + 1;
              case Build => buildCount := buildCount + 1;
            }
            j := j + 1;
          }
          assert kinds[..j] == kinds;
        case None =>
      }
      i := i + 1;
    }
    assert path[..i] == path;
    if buildCount > 0 || devCount > 0 {
      r := Ok(normalCount > 0);
    } else {
      r := Ok(true);
    }
  }

  // ---------------------------------------------------------------------------------------
  // The feature table, as collected into a `BTreeMap`

  /** Keys strictly ascending in the string order, hence also pairwise distinct. */
  predicate KeysAscending(m: seq<FeatureEntry>)
  {
    forall i, j :: 0 <= i < j < |m| ==> StrCmp(m[i].0, m[j].0) == Less
  }

  function KeySet(m: seq<FeatureEntry>): set<string>
  {
    set x | x in m :: x.0
  }

  /** `BTreeMap::insert`: the entry goes to its place by key, replacing an entry with the same key. */
  function InsertEntry(m: seq<FeatureEntry>, e: FeatureEntry): seq<FeatureEntry>
    decreases |m|
  {
    if m == [] then [e]
    else match StrCmp(e.0, m[0].0)
      case Equal => [e] + m[1..]
      case Less => [e] + m
      case Greater => [m[0]] + InsertEntry(m[1..], e)
  }

  /** Inserting into an ascending table keeps it ascending, adds the key, and only drops the entry it replaces. */
  lemma {:induction false} InsertEntrySpec(m: seq<FeatureEntry>, e: FeatureEntry)
    requires KeysAscending(m)
    ensures var r := InsertEntry(m, e);
      && KeysAscending(r)
      && KeySet(r) == KeySet(m) + {e.0}
      && e in r
      && forall x :: x in r ==> x == e || (x in m && x.0 != e.0)
    decreases |m|
  {
    if m != [] {
      assert m == [m[0]] + m[1..];
      StrCmpEqualIff(e.0, m[0].0);
      match StrCmp(e.0, m[0].0)
      case Equal =>
        InsertEqualCase(m, e);
      case Less =>
        InsertLessCase(m, e);
      case Greater =>
        InsertEntrySpec(m[1..], e);
        InsertGreaterCase(m, e);
        var rest := InsertEntry(m[1..], e);
        assert KeySet([m[0]] + rest) == {m[0].0} + KeySet(rest);
        assert KeySet(m) == {m[0].0} + KeySet(m[1..]);
    }
  }

  lemma InsertEqualCase(m: seq<FeatureEntry>, e: FeatureEntry)
    requires KeysAscending(m) && m != [] && e.0 == m[0].0
    ensures var r := [e] + m[1..];
      && KeysAscending(r)
      && KeySet(r) == KeySet(m) + {e.0}
      && forall x :: x in r ==> x == e || (x in m && x.0 != e.0)
  {
    assert m == [m[0]] + m[1..];
    forall j | 1 <= j < |m| ensures m[j].0 != e.0 {
      StrCmpEqualIff(m[0].0, m[j].0);
    }
  }

  lemma InsertLessCase(m: seq<FeatureEntry>, e: FeatureEntry)
    requires KeysAscending(m) && m != [] && StrCmp(e.0, m[0].0) == Less
    ensures var r := [e] + m;
      && KeysAscending(r)
      && forall x :: x in m ==> x.0 != e.0
  {
    var r := [e] + m;
    forall j | 0 <= j < |m| ensures StrCmp(e.0, m[j].0) == Less && m[j].0 != e.0 {
      if j > 0 { StrCmpTransitive(e.0, m[0].0, m[j].0); }
      StrCmpEqualIff(e.0, m[j].0);
    }
    forall i, j | 0 <= i < j < |r| ensures StrCmp(r[i].0, r[j].0) == Less {
      if i > 0 { assert r[i] == m[i - 1] && r[j] == m[j - 1]; } else { assert r[j] == m[j - 1]; }
    }
  }

  lemma InsertGreaterCase(m: seq<FeatureEntry>, e: FeatureEntry)
    requires KeysAscending(m) && m != [] && StrCmp(e.0, m[0].0) == Greater
    requires var rest := InsertEntry(m[1..], e);
      KeysAscending(rest) && forall x :: x in rest ==> x == e || (x in m[1..] && x.0 != e.0)
    ensures KeysAscending([m[0]] + InsertEntry(m[1..], e))
  {
    var rest := InsertEntry(m[1..], e);
    var r := [m[0]] + rest;
    StrCmpReverse(e.0, m[0].0);
    forall x | x in rest ensures StrCmp(m[0].0, x.0) == Less {
      if x != e {
        var j :| 0 <= j < |m[1..]| && m[1..][j] == x;
        assert m[j + 1] == x;
      }
    }
    forall i, j | 0 <= i < j < |r| ensures StrCmp(r[i].0, r[j].0) == Less {
      assert r[j] == rest[j - 1];
      if i > 0 { assert r[i] == rest[i - 1]; }
    }
  }

  /** `x` is an entry of `entries` that no later entry with the same key overrides. */
  predicate LatestIn(entries: seq<FeatureEntry>, x: FeatureEntry)
  {
    exists i :: 0 <= i < |entries| && entries[i] == x && forall j :: i < j < |entries| ==> entries[j].0 != x.0
  }

  lemma LatestInSnoc(init: seq<FeatureEntry>, last: FeatureEntry, x: FeatureEntry)
    requires x == last || (LatestIn(init, x) && x.0 != last.0)
    ensures LatestIn(init + [last], x)
  {
    var entries := init + [last];
    if x == last {
      assert entries[|entries| - 1] == x;
    } else {
      var i :| 0 <= i < |init| && init[i] == x && forall j :: i < j < |init| ==> init[j].0 != x.0;
      assert entries[i] == x;
      forall j | i < j < |entries| ensures entries[j].0 != x.0 {
        if j < |init| { assert entries[j] == init[j]; }
      }
    }
  }

  /** `collect::<BTreeMap<_, _>>()`: the entries inserted in order, so a later value for a key wins. */
  function CollectFeatureMap(entries: seq<FeatureEntry>): (r: seq<FeatureEntry>)
    ensures KeysAscending(r)
    ensures KeySet(r) == KeySet(entries)
    ensures forall x :: x in r ==> LatestIn(entries, x)
    decreases |entries|
  {
    if entries == [] then []
    else
      var init := entries[..|entries| - 1];
      var last := entries[|entries| - 1];
      var m := CollectFeatureMap(init);
      var r := InsertEntry(m, last);
      InsertEntrySpec(m, last);
      assert entries == init + [last];
      assert KeySet(entries) == KeySet(init) + {last.0};
      assert forall x :: x in r ==> LatestIn(entries, x) by {
        forall x | x in r ensures LatestIn(entries, x) {
          LatestInSnoc(init, last, x);
        }
      }
      r
  }

  // ---------------------------------------------------------------------------------------
  // Classification of features, children and optional dependencies

  /** The activated features Cargo reports for a package; none when it reports nothing. */
  function ActivatedFeatures(ws: WorkspaceResolve, id: PackageId): seq<string>
  {
    match ws.activatedFeatures(id)
    case Some(fs) => fs
    case None => []
  }

  /** Some optional dependency's cleaned package name equals the cleaned token. */
  predicate NamesOptionalDep(deps: seq<Dependency>, token: string)
  {
    exists d :: d in deps && d.optional && CleanFeatureName(d.packageName) == CleanFeatureName(token)
  }

  function ClassifyChild(token: string, deps: seq<Dependency>): Child
  {
    Child(token, Text.StartsWith(token, DepMarker) || NamesOptionalDep(deps, token))
  }

  function ClassifyFeature(entry: FeatureEntry, activated: seq<string>, deps: seq<Dependency>): Feature
  {
    var (name, tokens) := entry;
    Feature(
      name,
      |tokens| == 1 && tokens[0] == DepMarker + name,
      name in activated,
      seq(|tokens|, k requires 0 <= k < |tokens| => ClassifyChild(tokens[k], deps)))
  }

  function ClassifyFeatures(table: seq<FeatureEntry>, activated: seq<string>, deps: seq<Dependency>): seq<Feature>
  {
    seq(|table|, i requires 0 <= i < |table| => ClassifyFeature(table[i], activated, deps))
  }

  /** Some active feature has a child whose cleaned name is the cleaned name of `d`. */
  predicate EnabledByActiveFeature(features: seq<Feature>, d: Dependency)
  {
    exists f :: f in features && f.active &&
      exists c :: c in f.childs && CleanFeatureName(c.name) == CleanFeatureName(d.packageName)
  }

  predicate IsOptionalDep(d: Dependency)
  {
    d.optional
  }

  function ClassifyOptionals(deps: seq<Dependency>, features: seq<Feature>): seq<Optional>
  {
    var optionalDeps := Seqs.Filter(deps, IsOptionalDep);
    seq(|optionalDeps|, i requires 0 <= i < |optionalDeps| =>
      Optional(optionalDeps[i].packageName, EnabledByActiveFeature(features, optionalDeps[i])))
  }

  /**
   * `build_package`: classifies the package's features and optional dependencies and fails
   * exactly when the package is active on its edge without being globally active (or when
   * there is no resolve graph to decide that).
   */
  function BuildPackage(ws: WorkspaceResolve, pkg: CargoPackage, optional: bool, active: bool): (r: Result<Package, Error>)
    ensures var ga := GloballyActive(ws, pkg.id);
      r.Err? <==> ga.Err? || (active && !ga.value)
    ensures GloballyActive(ws, pkg.id).Ok? && r.Err? ==> r.error == InconsistentActivation
    ensures r.Ok? ==> r.value.globallyActive == GloballyActive(ws, pkg.id).value
    ensures r.Ok? ==> (r.value.active ==> r.value.globallyActive)
    ensures r.Ok? ==> r.value.name == pkg.id.name && r.value.version == pkg.id.version
    ensures r.Ok? ==> r.value.optional == optional && r.value.active == active
  {
    var features := ClassifyFeatures(CollectFeatureMap(pkg.features), ActivatedFeatures(ws, pkg.id), pkg.dependencies);
    match GloballyActive(ws, pkg.id)
    case Err(e) => Err(e)
    case Ok(globallyActive) =>
      if active && !globallyActive then Err(InconsistentActivation)
      else Ok(Package(pkg.id.name, pkg.id.version, optional, active, globallyActive,
                      features, ClassifyOptionals(pkg.dependencies, features)))
  }

  /** The raw tokens a feature was built from, read back from its children. */
  function TokensOf(f: Feature): seq<string>
  {
    seq(|f.childs|, k requires 0 <= k < |f.childs| => f.childs[k].name)
  }

  /** A built package has exactly one feature per declared feature name, in ascending name order. */
  lemma FeaturesOnePerKeyAscending(ws: WorkspaceResolve, pkg: CargoPackage, optional: bool, active: bool)
    requires BuildPackage(ws, pkg, optional, active).Ok?
    ensures var fs := BuildPackage(ws, pkg, optional, active).value.features;
      && (forall i, j :: 0 <= i < j < |fs| ==> StrCmp(fs[i].name, fs[j].name) == Less)
      && (set f | f in fs :: f.name) == KeySet(pkg.features)
  {
    var table := CollectFeatureMap(pkg.features);
    var fs := BuildPackage(ws, pkg, optional, active).value.features;
    assert |fs| == |table| && forall i :: 0 <= i < |fs| ==> fs[i].name == table[i].0;
    forall k | k in KeySet(pkg.features) ensures k in set f | f in fs :: f.name {
      var x :| x in table && x.0 == k;
      var i :| 0 <= i < |table| && table[i] == x;
      assert fs[i] in fs && fs[i].name == k;
    }
    forall k | k in (set f | f in fs :: f.name) ensures k in KeySet(pkg.features) {
      var f :| f in fs && f.name == k;
      var i :| 0 <= i < |fs| && fs[i] == f;
      assert table[i] in table && table[i].0 == k;
    }
  }

  /**
   * Each feature keeps the tokens last declared for its name as its children's names; it is
   * active exactly when Cargo lists it as activated (so never when Cargo lists nothing); it is
   * an implicit optional-dependency feature exactly when its only token is `dep:` followed by
   * its own name, and then that child is optional too; a child is optional exactly when its
   * token carries the marker or names an optional dependency once both are cleaned.
   */
  lemma FeatureFlags(ws: WorkspaceResolve, pkg: CargoPackage, optional: bool, active: bool)
    requires BuildPackage(ws, pkg, optional, active).Ok?
    ensures var fs := BuildPackage(ws, pkg, optional, active).value.features;
      forall f :: f in fs ==>
        && LatestIn(pkg.features, (f.name, TokensOf(f)))
        && (f.active <==> f.name in ActivatedFeatures(ws, pkg.id))
        && (ws.activatedFeatures(pkg.id).None? ==> !f.active)
        && (f.optional <==> TokensOf(f) == [DepMarker + f.name])
        && (f.optional ==> f.childs[0].optional)
        && forall c :: c in f.childs ==>
             (c.optional <==> Text.StartsWith(c.name, DepMarker) || NamesOptionalDep(pkg.dependencies, c.name))
  {
    var table := CollectFeatureMap(pkg.features);
    var fs := BuildPackage(ws, pkg, optional, active).value.features;
    forall f | f in fs
      ensures LatestIn(pkg.features, (f.name, TokensOf(f)))
      ensures f.optional <==> TokensOf(f) == [DepMarker + f.name]
      ensures f.optional ==> f.childs[0].optional
    {
      var i :| 0 <= i < |fs| && fs[i] == f;
      assert f == ClassifyFeature(table[i], ActivatedFeatures(ws, pkg.id), pkg.dependencies);
      assert TokensOf(f) == table[i].1;
      assert table[i] == (f.name, TokensOf(f));
      if f.optional {
        assert Text.StartsWith(f.childs[0].name, DepMarker) by {
          assert (DepMarker + f.name)[..|DepMarker|] == DepMarker;
        }
      }
    }
  }

  /**
   * The optional-dependency list has one entry per optional dependency, in declaration order;
   * an entry is active exactly when some active feature has a child whose cleaned name is the
   * dependency's cleaned name. Non-optional dependencies never appear.
   */
  lemma OptionalsClassified(ws: WorkspaceResolve, pkg: CargoPackage, optional: bool, active: bool)
    requires BuildPackage(ws, pkg, optional, active).Ok?
    ensures var p := BuildPackage(ws, pkg, optional, active).value;
      var od := Seqs.Filter(pkg.dependencies, IsOptionalDep);
      && |p.optionals| == |od|
      && (forall d :: d in pkg.dependencies && d.optional ==> d in od)
      && forall i :: 0 <= i < |od| ==>
           && od[i] in pkg.dependencies && od[i].optional
           && p.optionals[i].name == od[i].packageName
           && (p.optionals[i].active <==>
                 exists f :: f in p.features && f.active &&
                   exists c :: c in f.childs && CleanFeatureName(c.name) == CleanFeatureName(od[i].packageName))
  {
    var deps := pkg.dependencies;
    forall d | d in deps && d.optional ensures d in Seqs.Filter(deps, IsOptionalDep) {
      var i :| 0 <= i < |deps| && deps[i] == d;
    }
  }

  /**
   * A child that names an optional dependency without the marker, in an active feature, is shown
   * as an optional child and also makes that dependency's optional entry active: the two
   * reports are kept side by side, not merged.
   */
  lemma PlainTokenReportedTwice(ws: WorkspaceResolve, pkg: CargoPackage, optional: bool, active: bool, i: nat, k: nat, j: nat)
    requires BuildPackage(ws, pkg, optional, active).Ok?
    requires var p := BuildPackage(ws, pkg, optional, active).value;
      var od := Seqs.Filter(pkg.dependencies, IsOptionalDep);
      && i < |p.features| && k < |p.features[i].childs| && j < |od|
      && p.features[i].active
      && CleanFeatureName(p.features[i].childs[k].name) == CleanFeatureName(od[j].packageName)
    ensures var p := BuildPackage(ws, pkg, optional, active).value;
      p.features[i].childs[k].optional && p.optionals[j].active
  {
    var p := BuildPackage(ws, pkg, optional, active).value;
    var od := Seqs.Filter(pkg.dependencies, IsOptionalDep);
    OptionalsClassified(ws, pkg, optional, active);
    FeatureFlags(ws, pkg, optional, active);
    var f := p.features[i];
    var c := f.childs[k];
    assert f in p.features && c in f.childs;
    assert od[j] in pkg.dependencies && od[j].optional;
    assert NamesOptionalDep(pkg.dependencies, c.name);
  }

  /** The root is built with `optional = false` and `active` set to its global activation, so its check cannot fail. */
  lemma RootBuildIsConsistent(ws: WorkspaceResolve, root: CargoPackage)
    requires GloballyActive(ws, root.id).Ok?
    ensures BuildPackage(ws, root, false, GloballyActive(ws, root.id).value).Ok?
  {
  }

  // ---------------------------------------------------------------------------------------
  // Root selection and dependency export

  /** A package matches the request when the names are equal and, if a version is given, its requirement matches. */
  predicate MatchesRequest(p: CargoPackage, req: Cli.PackageVer, reqMatches: (string, string) -> bool)
  {
    match req.version
    case Some(v) => p.id.name == req.name && reqMatches(v.text, p.id.version)
    case None => p.id.name == req.name
  }

  /** The packages of the resolved set that match the request, in the set's order. */
  function Candidates(pkgs: seq<CargoPackage>, req: Cli.PackageVer, reqMatches: (string, string) -> bool): (r: seq<CargoPackage>)
    ensures forall i :: 0 <= i < |r| ==> r[i] in pkgs && MatchesRequest(r[i], req, reqMatches)
    ensures forall i :: 0 <= i < |pkgs| && MatchesRequest(pkgs[i], req, reqMatches) ==> pkgs[i] in r
  {
    Seqs.Filter(pkgs, p => MatchesRequest(p, req, reqMatches))
  }

  function Ids(pkgs: seq<CargoPackage>): seq<PackageId>
  {
    seq(|pkgs|, i requires 0 <= i < |pkgs| => pkgs[i].id)
  }

  /** The program's four-row table for whether a dependency edge is active. */
  function EdgeActive(activated: bool, optional: bool): (r: bool)
    ensures r <==> activated || !optional
  {
    match (activated, optional)
    case (true, true) => true
    case (true, false) => true
    case (false, true) => false
    case (false, false) => true
  }

  /** `packages().find(|p| dep.matches_id(p.package_id()))`: the first package the dependency matches. */
  function FindPackage(pkgs: seq<CargoPackage>, dep: Dependency, matchesId: (Dependency, PackageId) -> bool): (r: Option<CargoPackage>)
    ensures r.None? <==> forall i :: 0 <= i < |pkgs| ==> !matchesId(dep, pkgs[i].id)
    ensures r.Some? ==> exists i :: 0 <= i < |pkgs| && pkgs[i] == r.value && matchesId(dep, pkgs[i].id)
                                 && forall j :: 0 <= j < i ==> !matchesId(dep, pkgs[j].id)
    decreases |pkgs|
  {
    if pkgs == [] then None
    else if matchesId(dep, pkgs[0].id) then Some(pkgs[0])
    else
      var r := FindPackage(pkgs[1..], dep, matchesId);
      assert forall i :: 1 <= i < |pkgs| ==> pkgs[i] == pkgs[1..][i - 1];
      assert r.Some? ==> exists i :: 0 <= i < |pkgs| && pkgs[i] == r.value && matchesId(dep, pkgs[i].id)
                                 && forall j :: 0 <= j < i ==> !matchesId(dep, pkgs[j].id) by {
        if r.Some? {
          var i :| 0 <= i < |pkgs[1..]| && pkgs[1..][i] == r.value && matchesId(dep, pkgs[1..][i].id)
                   && forall j :: 0 <= j < i ==> !matchesId(dep, pkgs[1..][j].id);
          assert pkgs[i + 1] == r.value;
        }
      }
      r
  }

  /** The record exported for a dependency Cargo never resolved (an optional one left out, typically). */
  function Unresolved(dep: Dependency): Package
  {
    Package(dep.packageName, dep.versionReq, dep.optional, false, false, [], [])
  }

  /** The export of one normal dependency of `root`. */
  function ExportDependency(ws: WorkspaceResolve, root: CargoPackage, dep: Dependency): (r: Result<Package, Error>)
    ensures FindPackage(ws.packages, dep, ws.matchesId).None? ==> r == Ok(Unresolved(dep))
    ensures r.Ok? ==> r.value.optional == dep.optional && (r.value.active ==> r.value.globallyActive)
    ensures FindPackage(ws.packages, dep, ws.matchesId).Some? && r.Ok? ==>
      r.value.active == (ws.isDepActivated(root.id, dep.packageName) || !dep.optional)
  {
    var active := EdgeActive(ws.isDepActivated(root.id, dep.packageName), dep.optional);
    match FindPackage(ws.packages, dep, ws.matchesId)
    case Some(p) => BuildPackage(ws, p, dep.optional, active)
    case None => Ok(Unresolved(dep))
  }

  predicate IsNormal(d: Dependency)
  {
    d.kind == Normal
  }

  /** The exports of the normal dependencies among `deps`, in order, stopping at the first failure. */
  function ExportDependencies(ws: WorkspaceResolve, root: CargoPackage, deps: seq<Dependency>): Result<seq<Package>, Error>
    decreases |deps|
  {
    if deps == [] then Ok([])
    else match ExportDependencies(ws, root, deps[..|deps| - 1])
      case Err(e) => Err(e)
      case Ok(exported) =>
        var dep := deps[|deps| - 1];
        if dep.kind != Normal then Ok(exported)
        else match ExportDependency(ws, root, dep)
          case Err(e) => Err(e)
          case Ok(p) => Ok(exported + [p])
  }

  /** The exports of the normal dependencies, one package each, in declaration order. */
  lemma {:induction false} ExportDependenciesOk(ws: WorkspaceResolve, root: CargoPackage, deps: seq<Dependency>)
    requires ExportDependencies(ws, root, deps).Ok?
    ensures var exported := ExportDependencies(ws, root, deps).value;
      var normal := Seqs.Filter(deps, IsNormal);
      && |exported| == |normal|
      && forall i :: 0 <= i < |normal| ==> ExportDependency(ws, root, normal[i]) == Ok(exported[i])
    decreases |deps|
  {
    if deps != [] {
      var init := deps[..|deps| - 1];
      var dep := deps[|deps| - 1];
      assert ExportDependencies(ws, root, init).Ok?;
      ExportDependenciesOk(ws, root, init);
      var ni := Seqs.Filter(init, IsNormal);
      var ex := ExportDependencies(ws, root, init).value;
      assert Seqs.Filter(deps, IsNormal) == ni + (if IsNormal(dep) then [dep] else []);
      if IsNormal(dep) {
        var p := ExportDependency(ws, root, dep).value;
        assert ExportDependencies(ws, root, deps).value == ex + [p];
      }
    }
  }

  /** The first normal dependency of `deps` whose export fails does so with `e`. */
  predicate FirstFailure(ws: WorkspaceResolve, root: CargoPackage, deps: seq<Dependency>, e: Error)
  {
    exists i: nat :: i < |deps| && FailsFirstAt(ws, root, Seqs.Filter(deps, IsNormal), i, e)
  }

  /** The export of `normal[i]` fails with `e`, and those of all earlier entries succeed. */
  predicate FailsFirstAt(ws: WorkspaceResolve, root: CargoPackage, normal: seq<Dependency>, i: nat, e: Error)
  {
    i < |normal| && ExportDependency(ws, root, normal[i]) == Err(e) &&
    forall j :: 0 <= j < i ==> ExportDependency(ws, root, normal[j]).Ok?
  }

  lemma FailsFirstAtExtends(ws: WorkspaceResolve, root: CargoPackage, a: seq<Dependency>, b: seq<Dependency>, i: nat, e: Error)
    requires FailsFirstAt(ws, root, a, i, e)
    ensures FailsFirstAt(ws, root, a + b, i, e)
  {
    assert (a + b)[i] == a[i];
    forall j | 0 <= j < i ensures ExportDependency(ws, root, (a + b)[j]).Ok? {
      assert (a + b)[j] == a[j];
    }
  }

  /** A failed export carries the error of the first normal dependency whose export fails. */
  lemma {:induction false} ExportDependenciesErr(ws: WorkspaceResolve, root: CargoPackage, deps: seq<Dependency>)
    requires ExportDependencies(ws, root, deps).Err?
    ensures FirstFailure(ws, root, deps, ExportDependencies(ws, root, deps).error)
    decreases |deps|
  {
    var init := deps[..|deps| - 1];
    var dep := deps[|deps| - 1];
    assert deps == init + [dep];
    Seqs.FilterAppend(init, [dep], IsNormal);
    if ExportDependencies(ws, root, init).Err? {
      assert ExportDependencies(ws, root, deps) == ExportDependencies(ws, root, init);
      ExportDependenciesErr(ws, root, init);
      FirstFailureExtends(ws, root, init, dep, ExportDependencies(ws, root, init).error);
    } else {
      ExportDependenciesOk(ws, root, init);
      FirstFailureAtLast(ws, root, init, dep, ExportDependencies(ws, root, deps).error);
    }
  }

  lemma FirstFailureExtends(ws: WorkspaceResolve, root: CargoPackage, init: seq<Dependency>, dep: Dependency, e: Error)
    requires FirstFailure(ws, root, init, e)
    ensures FirstFailure(ws, root, init + [dep], e)
  {
    var ni := Seqs.Filter(init, IsNormal);
    Seqs.FilterAppend(init, [dep], IsNormal);
    var i: nat :| FailsFirstAt(ws, root, ni, i, e);
    FailsFirstAtExtends(ws, root, ni, Seqs.Filter([dep], IsNormal), i, e);
  }

  lemma FirstFailureAtLast(ws: WorkspaceResolve, root: CargoPackage, init: seq<Dependency>, dep: Dependency, e: Error)
    requires IsNormal(dep) && ExportDependency(ws, root, dep) == Err(e)
    requires forall j :: 0 <= j < |Seqs.Filter(init, IsNormal)| ==> ExportDependency(ws, root, Seqs.Filter(init, IsNormal)[j]).Ok?
    ensures FirstFailure(ws, root, init + [dep], e)
  {
    var ni := Seqs.Filter(init, IsNormal);
    var normal := Seqs.Filter(init + [dep], IsNormal);
    Seqs.FilterAppend(init, [dep], IsNormal);
    assert Seqs.Filter([dep], IsNormal) == [dep] by {
      assert [dep][..0] == [];
    }
    assert normal == ni + [dep];
    var i := |ni|;
    assert normal[i] == dep;
    assert ExportDependency(ws, root, normal[i]) == Err(e);
    forall j | 0 <= j < i ensures ExportDependency(ws, root, normal[j]).Ok? {
      assert normal[j] == ni[j];
    }
    assert FailsFirstAt(ws, root, normal, i, e);
  }

  /** Once a prefix of the dependencies fails, the whole export fails with the same error. */
  lemma {:induction false} ExportDependenciesPrefixError(ws: WorkspaceResolve, root: CargoPackage, deps: seq<Dependency>, n: nat)
    requires n <= |deps| && ExportDependencies(ws, root, deps[..n]).Err?
    ensures ExportDependencies(ws, root, deps) == ExportDependencies(ws, root, deps[..n])
    decreases |deps| - n
  {
    if n < |deps| {
      assert deps[..n + 1][..n] == deps[..n];
      ExportDependenciesPrefixError(ws, root, deps, n + 1);
    } else {
      assert deps[..n] == deps;
    }
  }

  /** Everything after the root has been selected: its dependencies when asked for, then the root itself. */
  function ExportRoot(ws: WorkspaceResolve, root: CargoPackage, deps: bool): Outcome
  {
    var exported := if deps then ExportDependencies(ws, root, root.dependencies) else Ok([]);
    match exported
    case Err(e) => Failed(e)
    case Ok(dependencies) =>
      match GloballyActive(ws, root.id)
      case Err(e) => Failed(e)
      case Ok(globallyActive) =>
        match BuildPackage(ws, root, false, globallyActive)
        case Err(e) => Failed(e)
        case Ok(p) => Exported(ExportInfo(p, dependencies))
  }

  /**
   * A successful export has a root that is not optional, whose `active` flag is its global
   * activation, and the dependency list exported only when asked for. It never fails with
   * `InconsistentActivation` on the root, and without a resolve graph it fails with `ResolveMissing`.
   */
  lemma ExportRootShape(ws: WorkspaceResolve, root: CargoPackage, deps: bool)
    ensures var r := ExportRoot(ws, root, deps);
      && (r.Exported? ==>
            && r.info.rootPackage.name == root.id.name
            && r.info.rootPackage.optional == false
            && r.info.rootPackage.active == r.info.rootPackage.globallyActive
            && r.info.dependencies == (if deps then ExportDependencies(ws, root, root.dependencies).value else []))
      && (ws.workspaceResolve.None? ==> r == Failed(ResolveMissing))
      && !r.Ambiguous?
  {
    if ws.workspaceResolve.None? && deps && ExportDependencies(ws, root, root.dependencies).Err? {
      ExportDependenciesErr(ws, root, root.dependencies);
    }
  }

  /** Every package of a successful export, root and dependencies alike, is active only if globally active. */
  lemma ExportedPackagesConsistent(ws: WorkspaceResolve, root: CargoPackage, deps: bool)
    requires ExportRoot(ws, root, deps).Exported?
    ensures var info := ExportRoot(ws, root, deps).info;
      forall p :: p in [info.rootPackage] + info.dependencies ==> (p.active ==> p.globallyActive)
  {
    var info := ExportRoot(ws, root, deps).info;
    if deps {
      ExportDependenciesOk(ws, root, root.dependencies);
      var normal := Seqs.Filter(root.dependencies, IsNormal);
      forall p | p in info.dependencies ensures p.active ==> p.globallyActive {
        var i :| 0 <= i < |info.dependencies| && info.dependencies[i] == p;
        assert ExportDependency(ws, root, normal[i]) == Ok(p);
      }
    }
  }

  /**
   * `build_export_info`: selects the root among the packages matching the request; none is an
   * error naming the package, several end the run listing them, and exactly one is exported,
   * after its normal dependencies when `deps` asks for them.
   */
  method BuildExportInfo(ws: WorkspaceResolve, rootPackage: Cli.PackageVer, deps: bool, reqMatches: (string, string) -> bool)
    returns (r: Outcome)
    ensures var c := Candidates(ws.packages, rootPackage, reqMatches);
      && (|c| == 0 ==> r == Failed(PackageNotFound(rootPackage.name)))
      && (|c| >= 2 ==> r == Ambiguous(Ids(c)))
      && (|c| == 1 ==> r == ExportRoot(ws, c[0], deps))
  {
    var possiblePackages := Candidates(ws.packages, rootPackage, reqMatches);
    if |possiblePackages| == 0 {
      return Failed(PackageNotFound(rootPackage.name));
    } else if |possiblePackages| >= 2 {
      return Ambiguous(Ids(possiblePackages));
    }
    var root := possiblePackages[0];

    var exportDependencies: seq<Package> := [];
    if deps {
      var i := 0;
      while i < |root.dependencies|
        invariant 0 <= i <= |root.dependencies|
        invariant ExportDependencies(ws, root, root.dependencies[..i]) == Ok(exportDependencies)
      {
        var dep := root.dependencies[i];
        assert root.dependencies[..i + 1][..i] == root.dependencies[..i];
        var active := EdgeActive(ws.isDepActivated(root.id, dep.packageName), dep.optional);
        if dep.kind == Normal {
          var exportDependency: Package;
          match FindPackage(ws.packages, dep, ws.matchesId) {
            case Some(dependency) =>
              var built := BuildPackage(ws, dependency, dep.optional, active);
              if built.Err? {
                ExportDependenciesPrefixError(ws, root, root.dependencies, i + 1);
                return Failed(built.error);
              }
              exportDependency := built.value;
            case None =>
              exportDependency := Unresolved(dep);
          }
          exportDependencies := exportDependencies + [exportDependency];
        }
        i := i + 1;
      }
      assert root.dependencies[..i] == root.dependencies;
    }

    var globallyActive := IsGloballyActive(ws, root.id);
    if globallyActive.Err? {
      return Failed(globallyActive.error);
    }
    match BuildPackage(ws, root, false, globallyActive.value) {
      case Err(e) => r := Failed(e);
      case Ok(rootExport) => r := Exported(ExportInfo(rootExport, exportDependencies));
    }
  }

  // ---------------------------------------------------------------------------------------
  // Worked examples

  function BarDependency(): Dependency
  {
    Dependency("bar", "^1", true, Normal)
  }

  function UseBarFeature(): Feature
  {
    Feature("use-bar", false, true, [Child("dep:bar", true)])
  }

  lemma UseBarFeatureClassified()
    ensures ClassifyFeatures([("use-bar", ["dep:bar"])], ["use-bar"], [BarDependency()]) == [UseBarFeature()]
  {
    assert "dep:bar" != DepMarker + "use-bar" by {
      assert |"dep:bar"| != |DepMarker + "use-bar"|;
    }
    assert Text.StartsWith("dep:bar", DepMarker);
    var f := ClassifyFeature(("use-bar", ["dep:bar"]), ["use-bar"], [BarDependency()]);
    assert ClassifyChild("dep:bar", [BarDependency()]) == Child("dep:bar", true);
    assert f.childs == [Child("dep:bar", true)];
  }

  lemma UseBarOptionalClassified()
    ensures ClassifyOptionals([BarDependency()], [UseBarFeature()]) == [Optional("bar", true)]
  {
    var bar := BarDependency();
    assert !HasDepMarker("bar") by {
      forall k | 0 <= k <= 3 ensures !Text.StartsWith("bar"[k..], DepMarker) { }
    }
    CleanMarkedName("bar");
    assert "dep:bar" == DepMarker + "bar";
    var features := [UseBarFeature()];
    assert EnabledByActiveFeature(features, bar) by {
      assert features[0] in features && features[0].childs[0] in features[0].childs;
    }
    assert Seqs.Filter([bar], IsOptionalDep) == [bar] by {
      assert [bar][..0] == [];
    }
  }

  /**
   * `foo@1.0.0` with an optional dependency `bar` and the feature `use-bar = ["dep:bar"]`,
   * activated: the feature is active and not implicit, its one child keeps the raw token
   * `dep:bar` and is optional, and `bar` is reported as an active optional dependency.
   */
  lemma UseBarExample()
    ensures var foo := CargoPackage(PackageId("foo", "1.0.0"), [("use-bar", ["dep:bar"])], [BarDependency()]);
      var ws := WorkspaceResolve([foo], id => Some(["use-bar"]), (id, n) => false, (d, id) => false, Some(id => []));
      BuildPackage(ws, foo, false, true)
        == Ok(Package("foo", "1.0.0", false, true, true, [UseBarFeature()], [Optional("bar", true)]))
  {
    var foo := CargoPackage(PackageId("foo", "1.0.0"), [("use-bar", ["dep:bar"])], [BarDependency()]);
    var ws := WorkspaceResolve([foo], id => Some(["use-bar"]), (id, n) => false, (d, id) => false, Some(id => []));
    assert CollectFeatureMap(foo.features) == foo.features;
    assert ActivatedFeatures(ws, foo.id) == ["use-bar"];
    assert GloballyActive(ws, foo.id) == Ok(true);
    UseBarFeatureClassified();
    UseBarOptionalClassified();
  }

  /** Two `foo` packages and a request for `foo` without a version: both are candidates, so the selection is ambiguous. */
  lemma AmbiguousExample(reqMatches: (string, string) -> bool)
    ensures var foo1 := CargoPackage(PackageId("foo", "1.0.0"), [], []);
      var foo2 := CargoPackage(PackageId("foo", "2.0.0"), [], []);
      Candidates([foo1, foo2], Cli.PackageVer("foo", None), reqMatches) == [foo1, foo2]
  {
    var foo1 := CargoPackage(PackageId("foo", "1.0.0"), [], []);
    var foo2 := CargoPackage(PackageId("foo", "2.0.0"), [], []);
    assert [foo1, foo2][..1] == [foo1] && [foo1][..0] == [];
  }

  /** There is no candidate exactly when no package matches the request (the "does not exist" error). */
  lemma CandidatesEmptyIff(pkgs: seq<CargoPackage>, req: Cli.PackageVer, reqMatches: (string, string) -> bool)
    ensures Candidates(pkgs, req, reqMatches) == [] <==> forall p :: p in pkgs ==> !MatchesRequest(p, req, reqMatches)
  {
    var c := Candidates(pkgs, req, reqMatches);
    if c == [] {
      forall p | p in pkgs ensures !MatchesRequest(p, req, reqMatches) {
        var i :| 0 <= i < |pkgs| && pkgs[i] == p;
      }
    } else {
      assert c[0] in pkgs && MatchesRequest(c[0], req, reqMatches);
    }
  }
}

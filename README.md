# cargo-features, modelled in Dafny

`cargo features` shows, for one package of a Cargo workspace, every feature it declares:
whether the feature is active, which tokens it enables, and which of its optional
dependencies are switched on. With `--deps` it does the same for each normal dependency.
This project models the part of the tool that computes that report from Cargo's
resolution results:

- `Cli` models the `name@version` package specification (`PackageVer::from`).
- `Resolver` models root selection, the per-dependency export loop (`build_export_info`),
  the classification of one package (`build_package`), the cleaning of feature tokens
  (`clean_feature_name`) and the global-activation rule (`is_globally_active`).
- `ExportInfo` models the exported records and the hand-written `Feature` ordering, in
  which a feature named `default` sorts first.
- `Wrappers`, `Seqs`, `Text` and `Cmp` are support modules: `Option`/`Result`, filtering,
  Rust's `str::split`, and Rust's `Ordering` with lexicographic slice and string comparison.

Cargo itself is not modelled. The answers the program asks of Cargo are fields of the
`Resolver.WorkspaceResolve` record: the package set, the activated features of a package,
whether a dependency edge is activated, which package a dependency resolves to, and the
`path_to_top` of a package in the resolve graph (absent when Cargo produced no graph).
Semantic-version matching is the function parameter `reqMatches`, and version parsing is
the predicate `parsesAsVersion`.

`is_globally_active` and `build_export_info` work by updating counters and pushing onto a
vector, so they are the methods `Resolver.IsGloballyActive` and `Resolver.BuildExportInfo`,
each with loops and invariants. Each is proved equal to a specification function:
`Resolver.GloballyActive`, or `Resolver.ExportDependencies` and `Resolver.ExportRoot`.
The rest of the core is iterator chains, so it becomes functions, and the lemmas about
them state what the report means.

Points of the code that the model keeps as written:

- The root is exported with `active` equal to its global activation
  (`src/resolver.rs:127-133`), so `build_package`'s consistency check never fires for it
  (`Resolver.RootBuildIsConsistent`). A root that is not globally active is exported, not
  reported as an error.
- A feature's children keep the raw tokens, such as `dep:bar`, rather than the cleaned
  names (`src/resolver.rs:171-172`).
- `src/export_info.rs` as written declares `Feature` without an `optional` flag, with
  `childs: Vec<String>`, and declares `Package` without `optionals`. `src/resolver.rs`
  builds records that have `optional`, `Child { name, optional }` and `optionals`. The
  model's records follow `src/resolver.rs`. The `Feature` ordering follows
  `src/export_info.rs`: `optional` takes no part in it, and children compare with the
  derived order of `Child`.

## Model

| member | source | states |
|---|---|---|
| Cli.FromString | src/cli.rs:53-66 | The name is the text before the first `@`, and it contains no `@`. A specification without `@` gives that name and no version. With an `@`, a successful result always carries a version. |
| Cli.FromStringWithVersion | src/cli.rs:55-63 | For `name@version`, optionally followed by `@` and anything, the name and the version are recovered exactly. The version is accepted exactly when it parses. Otherwise the result is the error that stands for the `expect` panic. |
| Cli.FromEmptyString | src/cli.rs:57-60 | The empty specification names the empty package with no version. The `expect` on the first split piece cannot fire. |
| Text.Split | src/cli.rs:55 | `split` always yields at least one piece. The first piece is a separator-free prefix of the input, followed by a separator if it is shorter. There is exactly one piece when there is no separator. |
| Text.SplitAtFirst | src/resolver.rs:230 | Splitting `head`, a separator, then `rest` gives `head` followed by the pieces of `rest`. |
| Resolver.CleanFeatureName | src/resolver.rs:228-235 | The cleaned name contains no `?` or `/`. It is a prefix of the token with `dep:` removed, cut just before its first qualifier. |
| Resolver.CleanMarkedName | src/resolver.rs:228-235 | Cleaning `dep:n` and cleaning `n` both give back `n`, for a plain name `n`. |
| Resolver.StripWithoutMarker | src/resolver.rs:229 | A token without `dep:` is unchanged by the removal. |
| Resolver.StripDepMarker | src/resolver.rs:229 | `replace("dep:", "")` as one left-to-right pass; the result is never longer. `StripAroundMarker`, `StripUnchangedIff` and `StripIsSinglePass` state what it does. |
| Resolver.StripAroundMarker | src/resolver.rs:229 | Marker-free text before a marker is kept, the marker is dropped, and the removal goes on after it, because `dep:` cannot overlap itself. |
| Resolver.StripShrinksMarked | src/resolver.rs:229 | A token holding `dep:` gets shorter. |
| Resolver.StripUnchangedIff | src/resolver.rs:229 | The removal leaves a token unchanged exactly when `dep:` does not occur in it. |
| Resolver.StripIsSinglePass | src/resolver.rs:229 | `replace` makes one pass: `ddep:ep:` becomes `dep:`, which still contains the marker. |
| Resolver.GloballyActive | src/resolver.rs:242-245 | The result is an error exactly when there is no resolve graph, and that error is `ResolveMissing`. |
| Resolver.IsGloballyActive | src/resolver.rs:237-262 | The three counter loops return exactly `GloballyActive`. |
| Resolver.CountStepAdds | src/resolver.rs:249-253 | Each counter grows by the number of edges of its kind in a step. |
| Resolver.CountPositiveIff | src/resolver.rs:248-255 | A counter is positive exactly when the path uses an edge of its kind. |
| Resolver.GloballyActiveMeaning | src/resolver.rs:257-261 | A package is globally active exactly when its `path_to_top` path uses a normal edge, or uses no development and no build edge. |
| Resolver.DevOrBuildOnlyIsInactive | src/resolver.rs:257-258 | A package whose `path_to_top` path uses development or build edges and no normal edge is not globally active. |
| Resolver.NormalEdgeIsActive | src/resolver.rs:257-258 | A package whose `path_to_top` path uses some normal edge is globally active, whatever other edges that path uses. |
| Resolver.EdgeFreePathIsActive | src/resolver.rs:254-261 | A `path_to_top` path none of whose steps carries edges, such as one made only of the package's own edge-less step, means globally active. |
| Resolver.TallyIgnoresEmptyStep | src/resolver.rs:254 | A path step without edges changes no counter, wherever it stands. |
| Resolver.InsertEntrySpec | src/resolver.rs:144-149 | `BTreeMap` insertion keeps the keys strictly ascending and adds the key. It drops only the entry with the same key. |
| Resolver.CollectFeatureMap | src/resolver.rs:144-149 | The collected feature table has strictly ascending keys and the same key set as the summary. Each entry is the last one the summary gave for its key. |
| Resolver.BuildPackage | src/resolver.rs:138-226 | It fails exactly when the global activation is an error, or when the package is active but not globally active, which gives `InconsistentActivation`. On success, `globally_active` is the computed value, active implies globally active, and name, version, `optional` and `active` pass through. |
| Resolver.FeaturesOnePerKeyAscending | src/resolver.rs:144-168 | There is exactly one exported feature per declared feature name, in ascending name order. |
| Resolver.FeatureFlags | src/resolver.rs:159-181 | A feature's children are the tokens last declared for its name. It is active exactly when Cargo lists it, so never when Cargo lists nothing. It is optional exactly when its only token is `dep:` plus its own name. A child is optional exactly when its token starts with `dep:`, or names an optional dependency once both are cleaned. |
| Resolver.ClassifyChild | src/resolver.rs:171-179 | One child of a feature. No contract of its own; `FeatureFlags` states it: the raw token is kept, optional exactly when it starts with `dep:` or names an optional dependency once both are cleaned. |
| Resolver.ClassifyFeature | src/resolver.rs:161-181 | One exported feature. No contract of its own; `FeatureFlags` and `FeaturesOnePerKeyAscending` state its name, `optional`, `active` and children. |
| Resolver.ClassifyOptionals | src/resolver.rs:200-215 | The optional-dependency entries. No contract of its own; `OptionalsClassified` and `PlainTokenReportedTwice` state them. |
| Resolver.OptionalsClassified | src/resolver.rs:200-215 | There is one optional entry per optional dependency, in declaration order, named by its package name. It is active exactly when some active feature has a child with the same cleaned name. |
| Resolver.PlainTokenReportedTwice | src/resolver.rs:173-178 | In an active feature, a marker-less token naming an optional dependency is an optional child and also makes that dependency's optional entry active. |
| Resolver.RootBuildIsConsistent | src/resolver.rs:127-133 | Building the root with its own global activation as `active` never fails with `InconsistentActivation`. |
| Resolver.Candidates | src/resolver.rs:53-64 | The candidates are exactly the packages of the set that match the name and, when one is given, the version requirement. |
| Resolver.CandidatesEmptyIff | src/resolver.rs:66-70 | There is no candidate exactly when no package matches, the case reported as "does not exist". |
| Resolver.EdgeActive | src/resolver.rs:89-101 | An edge is active exactly when Cargo activated it or the dependency is not optional. |
| Resolver.FindPackage | src/resolver.rs:104-108 | There is no result exactly when no package matches the dependency; any result found is a package of the set that matches it. |
| Resolver.ExportDependency | src/resolver.rs:103-121 | An unresolved dependency gives the placeholder record: inactive, not globally active, without features. A resolved one keeps the dependency's optionality, and it is active only if Cargo activated the edge or the dependency is not optional. |
| Resolver.ExportDependencies | src/resolver.rs:86-125 | The dependency loop, as one function over the dependency list. No contract of its own; `ExportDependenciesOk`, `ExportDependenciesErr` and `ExportDependenciesPrefixError` state it, and `BuildExportInfo`'s loop is proved to compute it. |
| Resolver.ExportDependenciesOk | src/resolver.rs:86-125 | A successful export has one package per normal dependency, in declaration order. Development and build dependencies are skipped. |
| Resolver.ExportDependenciesErr | src/resolver.rs:110 | A failed export carries the error of the first normal dependency whose build fails, and all earlier ones succeed. |
| Resolver.ExportDependenciesPrefixError | src/resolver.rs:110 | Once a prefix of the dependencies fails, the whole export fails with that error. |
| Resolver.ExportRoot | src/resolver.rs:86-135 | Everything after the root is selected. No contract of its own; `ExportRootShape` and `ExportedPackagesConsistent` state it. |
| Resolver.ExportRootShape | src/resolver.rs:127-135 | A successful export's root has the selected name, is not optional, and has `active` equal to `globally_active`. Dependencies appear only when asked for. Without a resolve graph the export fails with `ResolveMissing`, and it is never ambiguous. |
| Resolver.ExportedPackagesConsistent | src/resolver.rs:184-187 | In a successful export, every package, the root and each dependency, is active only if globally active. |
| Resolver.BuildExportInfo | src/resolver.rs:48-136 | No candidate is a `PackageNotFound` error naming the request. Two or more end with the candidate list, which stands for `exit(1)`. Exactly one is exported as `ExportRoot` prescribes, after its dependency loop. |
| Resolver.UseBarExample | src/resolver.rs:159-215 | For `use-bar = ["dep:bar"]` activated, the exported feature is active and not implicit, its child `dep:bar` is optional, and the optional entry `bar` is active. |
| Resolver.AmbiguousExample | src/resolver.rs:53-64 | Two packages named `foo` are both candidates for the request `foo` with no version. |
| ExportInfo.FeatureCmp | src/export_info.rs:24-39 | `<Feature as Ord>::cmp`. No contract of its own; `DefaultSortsFirst`, `FeatureCmpByName`, `FeatureCmpTieBreak`, `FeatureCmpEqualIff`, `FeatureCmpReverse` and `DefaultBreaksAntisymmetry` state it. |
| ExportInfo.FeaturePartialCmp | src/export_info.rs:41-56 | `<Feature as PartialOrd>::partial_cmp`, written out on its own. No contract of its own; `FeaturePartialCmpAgrees` states that it always returns `Some` of `FeatureCmp`. |
| ExportInfo.PackageCmp | src/export_info.rs:7-15 | The derived `Ord` of `Package`, field by field. No contract of its own; `PackageCmpByName` and `PackageSelfCmp` state it. |
| ExportInfo.DefaultSortsFirst | src/export_info.rs:26-28 | A feature named `default` compares as less than any feature, itself included. |
| ExportInfo.FeatureCmpByName | src/export_info.rs:29-32 | For a feature not named `default`, features with different names compare as their names do. |
| ExportInfo.FeatureCmpTieBreak | src/export_info.rs:33-37 | With equal names other than `default`, the active flag decides, inactive first. With equal active flags the result is the lexicographic comparison of the children, `Equal` exactly when they are equal. |
| ExportInfo.FeatureCmpEqualIff | src/export_info.rs:24-39 | Two features not named `default` compare equal exactly when name, active flag and children agree. |
| ExportInfo.FeatureCmpReverse | src/export_info.rs:24-39 | For features not named `default`, swapping the operands reverses the ordering. |
| ExportInfo.DefaultBreaksAntisymmetry | src/export_info.rs:26-32 | A feature whose name sorts below `default` is less than `default`, and `default` is also less than it. |
| ExportInfo.FeaturePartialCmpAgrees | src/export_info.rs:41-56 | `partial_cmp` always returns `Some` of what `cmp` returns. |
| ExportInfo.ChildCmpEqualIff | src/resolver.rs:171-179 | The derived order on children is equal exactly on equal children. |
| ExportInfo.PackageCmpByName | src/export_info.rs:7-15 | The derived package order compares names first. |
| ExportInfo.PackageSelfCmp | src/export_info.rs:7-15 | A package compares equal to itself exactly when none of its features is named `default`. |
| Cmp.StrCmpLessIff | src/export_info.rs:29 | Rust's string comparison gives `Less` exactly on a proper prefix, or on a smaller first differing character. |
| Cmp.StrCmpTransitive | src/export_info.rs:29 | String `Less` is transitive. |

## Left out

- `build_ws_resolve` and every part of Cargo are not modelled. The workspace, the package set, the activated features, `is_dep_activated`, `matches_id` and `path_to_top` are supplied through `Resolver.WorkspaceResolve`.
- Semantic versions are not modelled: a version keeps only its text. `VersionReq::parse(...).expect(...)` is assumed to succeed, and matching is the opaque parameter `reqMatches`.
- Cli.FromString: `Version::parse(...).expect(...)` panics on a bad version; the model returns `InvalidVersion` for it instead.
- Resolver.BuildExportInfo: the `eprintln!` listing and `std::process::exit(1)` for an ambiguous request become the `Ambiguous` outcome carrying the candidates' ids. The wording of error messages is not modelled.
- Resolver.BuildPackage: the second `is_globally_active` call (`src/resolver.rs:222`) asks the same question as the first, so the model computes it once.
- The derived `PartialOrd` of `Package` is not modelled; its derived `Ord` is `ExportInfo.PackageCmp`, which uses the derived order of `Optional` (`ExportInfo.OptionalCmp`). The `ExportInfo` record derives no order.
- Resolver.IsGloballyActive: the counters are `i32` in the program and `nat` in the model; a `path_to_top` path is far shorter than 2^31 edges, so the program's counters cannot overflow.
- Printing, terminal colours and output formats (`src/print.rs`), the cargo subcommand entry point (`src/cargo_features.rs`, `src/main.rs`) and the clap argument definitions in `src/cli.rs` are outside this model.
- The order of the package set and of each package's dependency list is taken as given, in the order Cargo yields them.

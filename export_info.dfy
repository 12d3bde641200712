/**
 * The exported, presentation-ready model of a package (src/export_info.rs) and the orders the
 * presentation layer sorts it with. The records carry the fields the resolver fills in:
 * a `Feature` has its `optional` flag and classified `Child` tokens, a `Package` its optional
 * dependencies. `Feature` has a hand-written order in which a feature named `default` claims to
 * come before everything, itself included; the other records use the derived, field-by-field order.
 */
module ExportInfo {
  import opened Wrappers
  import opened Cmp

  datatype Child = Child(name: string, optional: bool)

  datatype Feature = Feature(name: string, optional: bool, active: bool, childs: seq<Child>)

  datatype Optional = Optional(name: string, active: bool)

  datatype Package = Package(
    name: string,
    version: string,
    optional: bool,
    active: bool,
    globallyActive: bool,
    features: seq<Feature>,
    optionals: seq<Optional>)

  datatype ExportInfo = ExportInfo(rootPackage: Package, dependencies: seq<Package>)

  const DefaultFeature := "default"

  /** Derived order of `Child`: by name, then by the optional flag. */
  function ChildCmp(a: Child, b: Child): Ordering
  {
    StrCmp(a.name, b.name).Then(BoolCmp(a.optional, b.optional))
  }

  /** Derived `partial_cmp` of `Child`. */
  function ChildPartialCmp(a: Child, b: Child): Option<Ordering>
  {
    match StrPartialCmp(a.name, b.name)
    case Some(Equal) => BoolPartialCmp(a.optional, b.optional)
    case other => other
  }

  /** `<Feature as Ord>::cmp` */
  function FeatureCmp(a: Feature, b: Feature): Ordering
  {
    if a.name == DefaultFeature then Less
    else match StrCmp(a.name, b.name)
      case Equal =>
        (match BoolCmp(a.active, b.active)
         case Equal => LexCmp(a.childs, b.childs, ChildCmp)
         case other => other)
      case other => other
  }

  /** `<Feature as PartialOrd>::partial_cmp`, written out on its own as the program does. */
  function FeaturePartialCmp(a: Feature, b: Feature): Option<Ordering>
  {
    if a.name == DefaultFeature then Some(Less)
    else match StrPartialCmp(a.name, b.name)
      case Some(Equal) =>
        (match BoolPartialCmp(a.active, b.active)
         case Some(Equal) => LexPartialCmp(a.childs, b.childs, ChildPartialCmp)
         case other => other)
      case other => other
  }

  /** Derived order of `Optional`: by name, then by the active flag. */
  function OptionalCmp(a: Optional, b: Optional): Ordering
  {
    StrCmp(a.name, b.name).Then(BoolCmp(a.active, b.active))
  }

  /** Derived order of `Package`: its fields in declaration order, features by `FeatureCmp`. */
  function PackageCmp(p: Package, q: Package): Ordering
  {
    StrCmp(p.name, q.name)
      .Then(StrCmp(p.version, q.version))
      .Then(BoolCmp(p.optional, q.optional))
      .Then(BoolCmp(p.active, q.active))
      .Then(BoolCmp(p.globallyActive, q.globallyActive))
      .Then(LexCmp(p.features, q.features, FeatureCmp))
      .Then(LexCmp(p.optionals, q.optionals, OptionalCmp))
  }

  lemma ChildCmpEqualIff()
    ensures forall a, b :: ChildCmp(a, b) == Equal <==> a == b
  {
    forall a, b ensures ChildCmp(a, b) == Equal <==> a == b {
      StrCmpEqualIff(a.name, b.name);
    }
  }

  lemma ChildCmpReverse()
    ensures forall a, b :: ChildCmp(a, b) == ChildCmp(b, a).Reverse()
  {
    forall a, b ensures ChildCmp(a, b) == ChildCmp(b, a).Reverse() {
      StrCmpReverse(a.name, b.name);
    }
  }

  /** A feature named `default` is placed first against every feature, another `default` included. */
  lemma DefaultSortsFirst(d: Feature, other: Feature)
    requires d.name == DefaultFeature
    ensures FeatureCmp(d, other) == Less
  {
  }

  /** Otherwise, features with different names are ordered by name, lexicographically. */
  lemma FeatureCmpByName(a: Feature, b: Feature)
    requires a.name != DefaultFeature && a.name != b.name
    ensures FeatureCmp(a, b) == Less <==> StrLess(a.name, b.name)
    ensures FeatureCmp(a, b) != Equal
  {
    StrCmpEqualIff(a.name, b.name);
    StrCmpLessIff(a.name, b.name);
  }

  /**
   * Equal names (other than `default`) are ordered by the active flag, inactive first,
   * and then by the children lexicographically; the optional flag plays no part.
   */
  lemma FeatureCmpTieBreak(a: Feature, b: Feature)
    requires a.name == b.name && a.name != DefaultFeature
    ensures a.active != b.active ==> FeatureCmp(a, b) == (if b.active then Less else Greater)
    ensures a.active == b.active ==> (FeatureCmp(a, b) == Equal <==> a.childs == b.childs)
    ensures a.active == b.active ==> FeatureCmp(a, b) == LexCmp(a.childs, b.childs, ChildCmp)
  {
    StrCmpEqualIff(a.name, b.name);
    ChildCmpEqualIff();
    LexCmpEqualIff(a.childs, b.childs, ChildCmp);
  }

  /** Away from `default`, the order identifies exactly the features that agree on name, active flag and children. */
  lemma FeatureCmpEqualIff(a: Feature, b: Feature)
    requires a.name != DefaultFeature
    ensures FeatureCmp(a, b) == Equal <==> a.name == b.name && a.active == b.active && a.childs == b.childs
  {
    StrCmpEqualIff(a.name, b.name);
    ChildCmpEqualIff();
    LexCmpEqualIff(a.childs, b.childs, ChildCmp);
  }

  /** Between two features neither of which is `default`, the order is antisymmetric. */
  lemma FeatureCmpReverse(a: Feature, b: Feature)
    requires a.name != DefaultFeature && b.name != DefaultFeature
    ensures FeatureCmp(a, b) == FeatureCmp(b, a).Reverse()
  {
    StrCmpReverse(a.name, b.name);
    ChildCmpReverse();
    LexCmpReverse(a.childs, b.childs, ChildCmp);
  }

  /**
   * The `default` rule breaks antisymmetry: a feature whose name sorts before `default`
   * is less than a `default` feature, and the `default` feature is less than it too.
   * The relation is therefore not a total order.
   */
  lemma DefaultBreaksAntisymmetry(a: Feature, d: Feature)
    requires StrLess(a.name, DefaultFeature) && d.name == DefaultFeature
    ensures FeatureCmp(a, d) == Less && FeatureCmp(d, a) == Less
  {
    StrCmpLessIff(a.name, DefaultFeature);
    StrCmpEqualIff(a.name, DefaultFeature);
  }

  /** `partial_cmp` is always `Some` and agrees with `cmp` on every pair. */
  lemma FeaturePartialCmpAgrees(a: Feature, b: Feature)
    ensures FeaturePartialCmp(a, b) == Some(FeatureCmp(a, b))
  {
    forall x, y ensures ChildPartialCmp(x, y) == Some(ChildCmp(x, y)) {
    }
    LexPartialCmpAgrees(a.childs, b.childs, ChildCmp, ChildPartialCmp);
  }

  /** Packages with different names are ordered by name, lexicographically. */
  lemma PackageCmpByName(p: Package, q: Package)
    requires p.name != q.name
    ensures PackageCmp(p, q) == Less <==> StrLess(p.name, q.name)
    ensures PackageCmp(p, q) != Equal
  {
    StrCmpEqualIff(p.name, q.name);
    StrCmpLessIff(p.name, q.name);
  }

  /** A feature list compares `Equal` to itself exactly when no feature in it is named `default`. */
  lemma {:induction false} FeaturesSelfCmp(fs: seq<Feature>)
    ensures LexCmp(fs, fs, FeatureCmp) == Equal <==> forall i :: 0 <= i < |fs| ==> fs[i].name != DefaultFeature
    decreases |fs|
  {
    if fs != [] {
      var f := fs[0];
      if f.name != DefaultFeature {
        FeatureCmpEqualIff(f, f);
      }
      FeaturesSelfCmp(fs[1..]);
      assert forall i :: 1 <= i < |fs| ==> fs[i] == fs[1..][i - 1];
    }
  }

  lemma OptionalsSelfCmp(os: seq<Optional>)
    ensures LexCmp(os, os, OptionalCmp) == Equal
  {
    forall a, b ensures OptionalCmp(a, b) == Equal <==> a == b {
      StrCmpEqualIff(a.name, b.name);
    }
    LexCmpEqualIff(os, os, OptionalCmp);
  }

  /**
   * The derived package order inherits the `default` rule: a package compares `Equal`
   * to itself exactly when none of its features is named `default`.
   */
  lemma PackageSelfCmp(p: Package)
    ensures PackageCmp(p, p) == Equal <==> forall i :: 0 <= i < |p.features| ==> p.features[i].name != DefaultFeature
  {
    StrCmpEqualIff(p.name, p.name);
    StrCmpEqualIff(p.version, p.version);
    FeaturesSelfCmp(p.features);
    OptionalsSelfCmp(p.optionals);
  }
}

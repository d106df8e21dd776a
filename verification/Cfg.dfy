/** The conditions under which a declaration is compiled (crates/stm32wb-hci-macros/src/cfg.rs). */
module Cfg {
  import opened Release
  import opened Catalog

  /** Cargo features: a platform's, that of one of its releases, and a profile's. */
  datatype Feature =
    | PlatformFeature(platform: Platform)
    | ReleaseFeature(on: Platform, version: Version)
    | ProfileFeature(profile: Profile)

  /** Releases, and the profiles supporting an entry throughout them. */
  datatype Target = Target(releases: Range, profiles: seq<Profile>)

  /** `all(any(releases), any(profiles))` */
  datatype Alternative = Alternative(releases: seq<Feature>, profiles: seq<Feature>)

  datatype Condition = Enabled(feature: Feature) | AnyOf(alternatives: seq<Alternative>)

  /** The features enabled when a release of a platform and a profile are selected. */
  function Selection(platform: Platform, version: Version, profile: Profile): set<Feature> {
    {PlatformFeature(platform), ReleaseFeature(platform, version), ProfileFeature(profile)}
  }

  predicate AnyEnabled(features: seq<Feature>, enabled: set<Feature>) {
    exists i | 0 <= i < |features| :: features[i] in enabled
  }

  predicate Holds(condition: Condition, enabled: set<Feature>) {
    match condition
    case Enabled(feature) => feature in enabled
    case AnyOf(alternatives) =>
      exists i | 0 <= i < |alternatives| ::
        AnyEnabled(alternatives[i].releases, enabled) && AnyEnabled(alternatives[i].profiles, enabled)
  }

  function ReleasesIn(versions: seq<Version>, range: Range): (releases: seq<Version>)
    ensures forall version :: version in releases <==> version in versions && range.Contains(version)
  {
    if versions == [] then []
    else (if range.Contains(versions[0]) then [versions[0]] else []) + ReleasesIn(versions[1..], range)
  }

  /** Some target covers a release and profile. */
  predicate Covers(targets: seq<Target>, version: Version, profile: Profile) {
    exists i | 0 <= i < |targets| :: CoveredBy(targets[i], version, profile)
  }

  predicate CoveredBy(target: Target, version: Version, profile: Profile) {
    target.releases.Contains(version) && profile in target.profiles
  }

  function Covered(versions: seq<Version>, targets: seq<Target>): (covered: set<(Version, Profile)>)
    ensures forall version, profile ::
              (version, profile) in covered <==> version in versions && Covers(targets, version, profile)
  {
    set i, version, profile |
      0 <= i < |targets| && version in ReleasesIn(versions, targets[i].releases) && profile in targets[i].profiles ::
      (version, profile)
  }

  function ReleaseFeatures(platform: Platform, releases: seq<Version>): (features: seq<Feature>)
    ensures |features| == |releases|
    ensures forall i | 0 <= i < |releases| :: features[i] == ReleaseFeature(platform, releases[i])
  {
    seq(|releases|, i requires 0 <= i < |releases| => ReleaseFeature(platform, releases[i]))
  }

  function ProfileFeatures(profiles: seq<Profile>): (features: seq<Feature>)
    ensures |features| == |profiles|
    ensures forall i | 0 <= i < |profiles| :: features[i] == ProfileFeature(profiles[i])
  {
    seq(|profiles|, i requires 0 <= i < |profiles| => ProfileFeature(profiles[i]))
  }

  function AlternativeOf(catalog: CatalogData, target: Target): Alternative {
    Alternative(ReleaseFeatures(catalog.platform, ReleasesIn(Versions(catalog.releases), target.releases)),
                ProfileFeatures(target.profiles))
  }

  function AlternativesOf(catalog: CatalogData, targets: seq<Target>): (alternatives: seq<Alternative>)
    ensures |alternatives| == |targets|
    ensures forall i | 0 <= i < |targets| :: alternatives[i] == AlternativeOf(catalog, targets[i])
  {
    seq(|targets|, i requires 0 <= i < |targets| => AlternativeOf(catalog, targets[i]))
  }

  /** The condition enabling an item on every target covered: the platform's feature when
      as many are covered as there are. */
  function ConditionFor(catalog: CatalogData, targets: seq<Target>): Condition {
    if |Covered(Versions(catalog.releases), targets)| == |Targets(catalog)|
    then Enabled(PlatformFeature(catalog.platform))
    else AnyOf(AlternativesOf(catalog, targets))
  }

  // ----- the targets of a catalog

  lemma {:induction false} InPairs(version: Version, profiles: seq<Profile>, v: Version, p: Profile)
    ensures (v, p) in Pairs(version, profiles) <==> v == version && p in profiles
  {
    if v == version && p in profiles {
      var i :| 0 <= i < |profiles| && profiles[i] == p;
      assert Pairs(version, profiles)[i] == (v, p);
    }
  }

  lemma {:induction false} InTargets(catalog: CatalogData, k: nat, version: Version, profile: Profile)
    requires k <= |catalog.releases|
    ensures (version, profile) in TargetsFrom(catalog, k) <==>
            version in Versions(catalog.releases)[k..] && profile in ProfilesIn(catalog, version)
    decreases |catalog.releases| - k
  {
    if k < |catalog.releases| {
      var first := catalog.releases[k].version;
      InPairs(first, ProfilesIn(catalog, first), version, profile);
      InTargets(catalog, k + 1, version, profile);
      assert Versions(catalog.releases)[k..] == [first] + Versions(catalog.releases)[k + 1..];
    }
  }

  predicate Distinct<T(==)>(s: seq<T>) {
    forall i, j | 0 <= i < j < |s| :: s[i] != s[j]
  }

  lemma {:induction false} ProfilesDistinct(catalog: CatalogData, version: Version)
    requires ValidReleases(catalog)
    ensures Distinct(ProfilesIn(catalog, version))
  {
    var profiles := ProfilesIn(catalog, version);
    assert SortedUnique(profiles);
    forall i, j | 0 <= i < j < |profiles| ensures profiles[i] != profiles[j] {
      assert Rank(profiles[i]) < Rank(profiles[j]);
    }
  }

  lemma {:induction false} TargetsDistinct(catalog: CatalogData, k: nat)
    requires ValidReleases(catalog) && k <= |catalog.releases|
    ensures Distinct(TargetsFrom(catalog, k))
    decreases |catalog.releases| - k
  {
    if k < |catalog.releases| {
      var first := catalog.releases[k].version;
      var pairs, rest := Pairs(first, ProfilesIn(catalog, first)), TargetsFrom(catalog, k + 1);
      TargetsDistinct(catalog, k + 1);
      ProfilesDistinct(catalog, first);
      forall i | 0 <= i < |rest| ensures rest[i].0 != first {
        LaterTarget(catalog, k, rest[i]);
      }
      hide *;
      DistinctConcat(pairs, rest, first);
    }
  }

  lemma {:induction false} LaterTarget(catalog: CatalogData, k: nat, target: (Version, Profile))
    requires ValidReleases(catalog) && k < |catalog.releases| && target in TargetsFrom(catalog, k + 1)
    ensures target.0 != catalog.releases[k].version
  {
    var versions := Versions(catalog.releases);
    InTargets(catalog, k + 1, target.0, target.1);
    var i :| k + 1 <= i < |versions| && versions[i] == target.0;
    OrderByIndex(versions, k, i);
  }

  lemma {:induction false} DistinctConcat(pairs: seq<(Version, Profile)>, rest: seq<(Version, Profile)>,
                                          version: Version)
    requires Distinct(pairs) && Distinct(rest)
    requires forall i | 0 <= i < |pairs| :: pairs[i].0 == version
    requires forall i | 0 <= i < |rest| :: rest[i].0 != version
    ensures Distinct(pairs + rest)
  {
    var all := pairs + rest;
    forall i, j | 0 <= i < j < |all| ensures all[i] != all[j] {
      if i < |pairs| <= j {
        assert all[i].0 == version && all[j] == rest[j - |pairs|];
      }
    }
  }

  lemma {:induction false} DistinctCount<T>(s: seq<T>)
    requires Distinct(s)
    ensures |set x | x in s| == |s|
  {
    if s != [] {
      var front := s[..|s| - 1];
      DistinctCount(front);
      assert s == front + [s[|s| - 1]];
      assert (set x | x in s) == (set x | x in front) + {s[|s| - 1]};
    }
  }

  lemma {:induction false} SubsetCount<T>(a: set<T>, b: set<T>)
    requires a <= b && |a| == |b|
    ensures a == b
  {
    assert b == a + (b - a);
    assert |b| == |a| + |b - a|;
  }

  // ----- what the condition means

  /** The targets covered are targets of the catalog, as validated availability makes them. */
  ghost predicate WithinTargets(catalog: CatalogData, targets: seq<Target>) {
    forall version, profile | version in Versions(catalog.releases) && Covers(targets, version, profile) ::
      profile in ProfilesIn(catalog, version)
  }

  lemma {:induction false} AllCovered(catalog: CatalogData, targets: seq<Target>, version: Version, profile: Profile)
    requires ValidReleases(catalog) && WithinTargets(catalog, targets)
    requires |Covered(Versions(catalog.releases), targets)| == |Targets(catalog)|
    requires version in Versions(catalog.releases) && profile in ProfilesIn(catalog, version)
    ensures Covers(targets, version, profile)
  {
    var covered := Covered(Versions(catalog.releases), targets);
    var all := set target | target in Targets(catalog);
    TargetsDistinct(catalog, 0);
    DistinctCount(Targets(catalog));
    forall target | target in covered ensures target in all {
      InTargets(catalog, 0, target.0, target.1);
    }
    SubsetCount(covered, all);
    InTargets(catalog, 0, version, profile);
  }

  lemma {:induction false} AlternativeHolds(catalog: CatalogData, target: Target, version: Version, profile: Profile)
    requires version in Versions(catalog.releases)
    ensures var enabled := Selection(catalog.platform, version, profile);
            var alternative := AlternativeOf(catalog, target);
            AnyEnabled(alternative.releases, enabled) && AnyEnabled(alternative.profiles, enabled) <==>
            CoveredBy(target, version, profile)
  {
    var enabled := Selection(catalog.platform, version, profile);
    var releases := ReleasesIn(Versions(catalog.releases), target.releases);
    assert AnyEnabled(ReleaseFeatures(catalog.platform, releases), enabled) <==> version in releases by {
      if version in releases {
        var i :| 0 <= i < |releases| && releases[i] == version;
        assert ReleaseFeatures(catalog.platform, releases)[i] in enabled;
      }
    }
    assert AnyEnabled(ProfileFeatures(target.profiles), enabled) <==> profile in target.profiles by {
      if profile in target.profiles {
        var i :| 0 <= i < |target.profiles| && target.profiles[i] == profile;
        assert ProfileFeatures(target.profiles)[i] in enabled;
      }
    }
  }

  lemma {:induction false} AnyAlternative(catalog: CatalogData, targets: seq<Target>, version: Version,
                                          profile: Profile)
    requires version in Versions(catalog.releases)
    ensures Holds(AnyOf(AlternativesOf(catalog, targets)), Selection(catalog.platform, version, profile)) <==>
            Covers(targets, version, profile)
  {
    var alternatives := AlternativesOf(catalog, targets);
    var enabled := Selection(catalog.platform, version, profile);
    hide AlternativeOf, AnyEnabled, CoveredBy, Selection;
    forall i | 0 <= i < |targets|
      ensures AnyEnabled(alternatives[i].releases, enabled) && AnyEnabled(alternatives[i].profiles, enabled) <==>
              CoveredBy(targets[i], version, profile)
    {
      AlternativeHolds(catalog, targets[i], version, profile);
    }
  }

  /** The condition holds for a release and a profile it has exactly when they are covered,
      also where only the numbers of targets were compared. */
  lemma {:induction false} ConditionMeansCovered(catalog: CatalogData, targets: seq<Target>, version: Version,
      profile: Profile)
    requires ValidReleases(catalog) && WithinTargets(catalog, targets)
    requires version in Versions(catalog.releases) && profile in ProfilesIn(catalog, version)
    ensures Holds(ConditionFor(catalog, targets), Selection(catalog.platform, version, profile)) <==>
            Covers(targets, version, profile)
  {
    hide ValidReleases, WithinTargets;
    if |Covered(Versions(catalog.releases), targets)| == |Targets(catalog)| {
      AllCovered(catalog, targets, version, profile);
    } else {
      AnyAlternative(catalog, targets, version, profile);
    }
  }
}

/** The names of Cargo features, which conditions compare
    (crates/stm32wb-catalog/src/target.rs and release.rs). */
module Features {
  import opened Options
  import opened Text
  import opened Layout
  import opened Release
  import opened Catalog
  import opened Cfg
  import opened DomainItems

  function ProfileName(profile: Profile): string {
    match profile
    case FullExtended => "full-extended"
    case Full => "full"
    case Light => "light"
    case HciLayerExtended => "hci-layer-extended"
    case HciLayer => "hci-layer"
    case HciAdvScan => "hci-adv-scan"
    case WbaFull => "wba-full"
    case WbaBasicPlus => "wba-basic-plus"
    case WbaBasicFeatures => "wba-basic-features"
    case WbaPeripheralOnly => "wba-peripheral-only"
    case WbaLinkLayerOnly => "wba-link-layer-only"
    case WbaLinkLayerOnlyBasic => "wba-link-layer-only-basic"
  }

  function ReleasePrefix(platform: Platform): string {
    if platform.Stm32wb? then "fw_" else "wba_"
  }

  function PlatformName(platform: Platform): string {
    if platform.Stm32wb? then "_stm32wb" else "_stm32wba"
  }

  /** `<major>_<minor>_<patch>` */
  function VersionName(version: Version): string {
    Decimal(version.major) + "_" + (Decimal(version.minor) + "_" + Decimal(version.patch))
  }

  function FeatureName(feature: Feature): string {
    match feature
    case PlatformFeature(platform) => PlatformName(platform)
    case ReleaseFeature(platform, version) => ReleasePrefix(platform) + VersionName(version)
    case ProfileFeature(profile) => "stack-" + ProfileName(profile)
  }

  /** One part of a version. */
  function ParsePart(s: string): Option<u16> {
    Unsigned(s, Ten, 0x1_0000)
  }

  /** The release a feature name selects, with exactly three parts after its prefix. */
  function ReleaseFrom(name: string, prefix: string): Option<Version> {
    if !(prefix <= name) then None else
    var major := SplitOnce(name[|prefix|..], "_");
    if major.None? then None else
    var minor := SplitOnce(major.value.1, "_");
    if minor.None? || SplitOnce(minor.value.1, "_").Some? then None else
    var a, b, c := ParsePart(major.value.0), ParsePart(minor.value.0), ParsePart(minor.value.1);
    if a.None? || b.None? || c.None? then None else Some(Version(a.value, b.value, c.value))
  }

  lemma {:induction false} PartParsed(n: u16)
    ensures ParsePart(Decimal(n)) == Some(n) && Without(Decimal(n), '_')
  {
    UnsignedDecimal(n, 0x1_0000);
    DigitsDenote(n, Ten);
    PrintableWithout(Decimal(n), Ten, '_');
  }

  /** The release a feature name was made for is read back from it. */
  lemma {:induction false} ReleaseRoundTrips(platform: Platform, version: Version)
    ensures ReleaseFrom(FeatureName(ReleaseFeature(platform, version)), ReleasePrefix(platform)) == Some(version)
  {
    var prefix := ReleasePrefix(platform);
    var name := FeatureName(ReleaseFeature(platform, version));
    var a, b, c := Decimal(version.major), Decimal(version.minor), Decimal(version.patch);
    PartParsed(version.major);
    PartParsed(version.minor);
    PartParsed(version.patch);
    hide Digits, Unsigned, SplitOnce, ParsePart, Without;
    assert prefix <= name && name[|prefix|..] == a + "_" + (b + "_" + c);
    SplitAtFirst(a, "_", b + "_" + c);
    SplitAtFirst(b, "_", c);
    NothingToSplit(c, "_");
  }

  lemma {:induction false} ProfileNamesDistinct(a: Profile, b: Profile)
    requires ProfileName(a) == ProfileName(b)
    ensures a == b
  {
    if |ProfileName(a)| == 18 {
      assert ProfileName(a)[0] == ProfileName(b)[0];
    } else if |ProfileName(a)| == 19 {
      assert ProfileName(a)[4] == ProfileName(b)[4];
    }
  }

  lemma {:induction false} SameRelease(platform: Platform, a: Version, b: Version)
    requires FeatureName(ReleaseFeature(platform, a)) == FeatureName(ReleaseFeature(platform, b))
    ensures a == b
  {
    hide *;
    ReleaseRoundTrips(platform, a);
    ReleaseRoundTrips(platform, b);
  }

  lemma {:induction false} SameProfile(a: Profile, b: Profile)
    requires FeatureName(ProfileFeature(a)) == FeatureName(ProfileFeature(b))
    ensures a == b
  {
    hide ProfileName;
    var x, y := FeatureName(ProfileFeature(a)), FeatureName(ProfileFeature(b));
    assert x[6..] == ProfileName(a) && y[6..] == ProfileName(b);
    ProfileNamesDistinct(a, b);
  }

  /** Features with the same name are the same feature, so that comparing names is comparing
      the platforms, releases and profiles they stand for. */
  lemma {:induction false} NamesDistinct(a: Feature, b: Feature)
    requires FeatureName(a) == FeatureName(b)
    ensures a == b
  {
    hide *;
    FirstCharacter(a);
    FirstCharacter(b);
    match a {
      case PlatformFeature(_) =>
      case ReleaseFeature(platform, version) =>
        SameRelease(platform, version, b.version);
      case ProfileFeature(profile) =>
        SameProfile(profile, b.profile);
    }
  }

  lemma {:induction false} FirstCharacter(feature: Feature)
    ensures FeatureName(feature) != ""
    ensures FeatureName(feature)[0] ==
            match feature
            case PlatformFeature(_) => '_'
            case ReleaseFeature(platform, _) => if platform.Stm32wb? then 'f' else 'w'
            case ProfileFeature(_) => 's'
    ensures feature.PlatformFeature? ==> |FeatureName(feature)| == if feature.platform.Stm32wb? then 8 else 9
  {
    hide Digits;
  }

  /** The names themselves. */
  lemma {:induction false} ReleaseText()
    ensures FeatureName(ReleaseFeature(Stm32wb, Version(1, 7, 2))) == "fw_1_7_2"
    ensures FeatureName(ReleaseFeature(Stm32wba, Version(1, 8, 0))) == "wba_1_8_0"
  {
    assert Decimal(0) == "0" && Decimal(1) == "1" && Decimal(2) == "2" && Decimal(7) == "7" && Decimal(8) == "8";
    hide Digits;
  }

  lemma {:induction false} ProfileText()
    ensures FeatureName(PlatformFeature(Stm32wb)) == "_stm32wb" && FeatureName(PlatformFeature(Stm32wba)) == "_stm32wba"
    ensures FeatureName(ProfileFeature(Full)) == "stack-full" && FeatureName(ProfileFeature(Light)) == "stack-light"
    ensures FeatureName(ProfileFeature(WbaFull)) == "stack-wba-full"
  {
  }
}

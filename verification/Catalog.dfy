/** The catalog: release-ranged histories of commands, events, binaries, statuses and
    documented values, their lookups, and what validation requires of them
    (crates/stm32wb-catalog/src/lib.rs). Entries are tables by identity; the order in
    which the program lists them is not modelled. */
module Catalog {
  import opened Options
  import opened Layout
  import opened Cycles
  import opened Release
  import opened Domains

  datatype Platform = Stm32wb | Stm32wba

  datatype Profile =
    | FullExtended | Full | Light | HciLayerExtended | HciLayer | HciAdvScan
    | WbaFull | WbaBasicPlus | WbaBasicFeatures | WbaPeripheralOnly | WbaLinkLayerOnly | WbaLinkLayerOnlyBasic

  /** The position of a profile in the derived order. */
  function Rank(profile: Profile): (rank: nat)
    ensures rank < 12
  {
    match profile
    case FullExtended => 0
    case Full => 1
    case Light => 2
    case HciLayerExtended => 3
    case HciLayer => 4
    case HciAdvScan => 5
    case WbaFull => 6
    case WbaBasicPlus => 7
    case WbaBasicFeatures => 8
    case WbaPeripheralOnly => 9
    case WbaLinkLayerOnly => 10
    case WbaLinkLayerOnlyBasic => 11
  }

  function ProfileAt(rank: nat): (profile: Profile)
    requires rank < 12
    ensures Rank(profile) == rank
  {
    match rank
    case 0 => FullExtended
    case 1 => Full
    case 2 => Light
    case 3 => HciLayerExtended
    case 4 => HciLayer
    case 5 => HciAdvScan
    case 6 => WbaFull
    case 7 => WbaBasicPlus
    case 8 => WbaBasicFeatures
    case 9 => WbaPeripheralOnly
    case 10 => WbaLinkLayerOnly
    case _ => WbaLinkLayerOnlyBasic
  }

  lemma {:induction false} RankDistinguishes(a: Profile, b: Profile)
    ensures Rank(a) == Rank(b) <==> a == b
  {
  }

  function PlatformOf(profile: Profile): Platform {
    if Rank(profile) < 6 then Stm32wb else Stm32wba
  }

  /** The profiles of a platform, the complete one first. */
  function ProfilesOf(platform: Platform): (profiles: seq<Profile>)
    ensures |profiles| == 6
    ensures forall i | 0 <= i < 6 :: Rank(profiles[i]) == i + if platform.Stm32wb? then 0 else 6
  {
    if platform.Stm32wb? then [FullExtended, Full, Light, HciLayerExtended, HciLayer, HciAdvScan]
    else [WbaFull, WbaBasicPlus, WbaBasicFeatures, WbaPeripheralOnly, WbaLinkLayerOnly, WbaLinkLayerOnlyBasic]
  }

  predicate SortedUnique(profiles: seq<Profile>) {
    forall i, j | 0 <= i < j < |profiles| :: Rank(profiles[i]) < Rank(profiles[j])
  }

  datatype Family = Wb1x | Wb3x | Wb5x
  datatype CommandScope = StandardCommand | VendorCommand | SystemCommand
  datatype EventScope = StandardEvent | LeMetaEvent | VendorEvent | SystemEvent
  datatype Completion = CommandComplete | CommandStatus

  datatype LayoutFact = Resolved(fields: seq<Field>) | Unresolved(reason: string)
  datatype Bearer = Bearer(member: string, first: u16, last: u16)
  datatype Member = Member(name: string, returned: bool)

  datatype CommandKey = CommandKey(scope: CommandScope, opcode: u16)
  datatype EventKey = EventKey(scope: EventScope, code: u16)
  datatype BinaryKey = BinaryKey(family: Family, profile: Profile)
  datatype StatusKey = StatusKey(value: nat, name: string)
  datatype StructMember = StructMember(structure: string, member: string)

  datatype CommandDefinition = CommandDefinition(
    completion: Completion, params: LayoutFact, results: Option<LayoutFact>, structs: Structs, bearers: seq<Bearer>)

  datatype EventDefinition = EventDefinition(payload: LayoutFact, structs: Structs, bearers: seq<Bearer>)

  /** A command or event: its names, the profiles supporting it, its definitions, and the
      documented values of its members, over time. */
  datatype History<D> = History(
    names: seq<Ranged<string>>,
    availability: seq<Ranged<seq<Profile>>>,
    definitions: seq<Ranged<D>>,
    domains: map<Member, seq<Ranged<Domain>>>)

  /** A release, with the stack profiles it lists: none on STM32WB, where no release lacks
      any. */
  datatype ReleaseSource = ReleaseSource(version: Version, profiles: seq<Profile>)

  datatype CatalogData = CatalogData(
    platform: Platform,
    releases: seq<ReleaseSource>,
    binaries: map<BinaryKey, seq<Ranged<()>>>,
    commands: map<CommandKey, History<CommandDefinition>>,
    events: map<EventKey, History<EventDefinition>>,
    structDomains: map<StructMember, seq<Ranged<Domain>>>,
    statuses: map<StatusKey, seq<Ranged<()>>>)

  // ----- lookups

  function Versions(releases: seq<ReleaseSource>): (versions: seq<Version>)
    ensures |versions| == |releases|
    ensures forall i | 0 <= i < |releases| :: versions[i] == releases[i].version
  {
    seq(|releases|, i requires 0 <= i < |releases| => releases[i].version)
  }

  /** The position of the first range holding in `version`, as `definition_at`,
      `profiles_at`, `name_at` and `domain` find it. */
  function IndexIn<T>(ranged: seq<Ranged<T>>, version: Version): (index: Option<nat>)
    ensures index.Some? ==> index.value < |ranged| && ranged[index.value].releases.Contains(version)
    ensures index.Some? ==> forall k | 0 <= k < index.value :: !ranged[k].releases.Contains(version)
    ensures index.None? ==> forall k | 0 <= k < |ranged| :: !ranged[k].releases.Contains(version)
  {
    if ranged == [] then None
    else if ranged[0].releases.Contains(version) then Some(0)
    else
      var rest := IndexIn(ranged[1..], version);
      if rest.None? then None else Some(rest.value + 1)
  }

  /** The fact holding in `version`. */
  function FactIn<T>(ranged: seq<Ranged<T>>, version: Version): Option<T> {
    var index := IndexIn(ranged, version);
    if index.None? then None else Some(ranged[index.value].fact)
  }

  /** The stack profiles a release has. */
  function ProfilesIn(catalog: CatalogData, version: Version): seq<Profile> {
    var source := SourceOf(catalog.releases, version);
    match source
    case None => []
    case Some(release) => if release.profiles == [] then ProfilesOf(catalog.platform) else release.profiles
  }

  function SourceOf(releases: seq<ReleaseSource>, version: Version): (source: Option<ReleaseSource>)
    ensures source.Some? ==> source.value in releases && source.value.version == version
    ensures source.None? ==> forall release | release in releases :: release.version != version
  {
    if releases == [] then None
    else if releases[0].version == version then Some(releases[0])
    else SourceOf(releases[1..], version)
  }

  /** On STM32WB a listed release has every profile of the platform, and otherwise those it
      lists. */
  lemma {:induction false} ProfilesListed(catalog: CatalogData, i: nat)
    requires ValidReleases(catalog) && i < |catalog.releases|
    ensures var profiles := ProfilesIn(catalog, catalog.releases[i].version);
            if catalog.platform == Stm32wb
            then profiles == [FullExtended, Full, Light, HciLayerExtended, HciLayer, HciAdvScan]
            else profiles == catalog.releases[i].profiles
  {
    var versions := Versions(catalog.releases);
    var source := SourceOf(catalog.releases, catalog.releases[i].version);
    assert source.Some?;
    var j :| 0 <= j < |catalog.releases| && catalog.releases[j] == source.value;
    OrderByIndex(versions, i, j);
  }

  /** The releases in order, each paired with the profiles it has. */
  function Targets(catalog: CatalogData): seq<(Version, Profile)> {
    TargetsFrom(catalog, 0)
  }

  function TargetsFrom(catalog: CatalogData, k: nat): seq<(Version, Profile)>
    requires k <= |catalog.releases|
    decreases |catalog.releases| - k
  {
    if k == |catalog.releases| then [] else
    var version := catalog.releases[k].version;
    Pairs(version, ProfilesIn(catalog, version)) + TargetsFrom(catalog, k + 1)
  }

  function Pairs(version: Version, profiles: seq<Profile>): (pairs: seq<(Version, Profile)>)
    ensures |pairs| == |profiles|
    ensures forall i | 0 <= i < |profiles| :: pairs[i] == (version, profiles[i])
  {
    seq(|profiles|, i requires 0 <= i < |profiles| => (version, profiles[i]))
  }

  // ----- validation

  /** A check of a member's documented values against the layout of a release. */
  type DomainCheck = (Option<LayoutFact>, Member, Domain) -> bool

  predicate NoOverlaps<T>(ranged: seq<Ranged<T>>) {
    forall i, j | 0 <= i < j < |ranged| :: !ranged[i].releases.Overlaps(ranged[j].releases)
  }

  predicate Bounded<T>(versions: seq<Version>, ranged: seq<Ranged<T>>) {
    forall i | 0 <= i < |ranged| :: ranged[i].releases.first in versions && ranged[i].releases.last in versions
  }

  predicate Present<T>(ranged: seq<Ranged<T>>, version: Version) {
    exists i | 0 <= i < |ranged| :: ranged[i].releases.Contains(version)
  }

  predicate ValidReleases(catalog: CatalogData) {
    && catalog.releases != [] && Ascending(Versions(catalog.releases))
    && forall release | release in catalog.releases ::
         if catalog.platform.Stm32wb? then release.profiles == []
         else
           && SortedUnique(release.profiles)
           && ProfilesOf(catalog.platform)[0] in release.profiles
           && forall profile | profile in release.profiles :: PlatformOf(profile) == catalog.platform
  }

  /** Definitions, names, and availability each partition the same set of releases. */
  predicate ValidHistory<D>(catalog: CatalogData, history: History<D>) {
    var versions := Versions(catalog.releases);
    && history.definitions != []
    && NoOverlaps(history.definitions) && NoOverlaps(history.names) && NoOverlaps(history.availability)
    && Bounded(versions, history.definitions) && Bounded(versions, history.names)
    && Bounded(versions, history.availability)
    && (forall version | version in versions ::
          (Present(history.names, version) <==> Present(history.definitions, version)) &&
          (Present(history.availability, version) <==> Present(history.definitions, version)))
    && (forall i | 0 <= i < |history.names| :: history.names[i].fact != "")
    && (forall i | 0 <= i < |history.availability| :: ValidAvailability(catalog, history.availability[i]))
  }

  predicate ValidAvailability(catalog: CatalogData, entry: Ranged<seq<Profile>>) {
    && entry.fact != [] && SortedUnique(entry.fact)
    && (forall profile | profile in entry.fact :: PlatformOf(profile) == catalog.platform)
    && (forall version, profile |
          version in Versions(catalog.releases) && entry.releases.Contains(version) && profile in entry.fact ::
            profile in ProfilesIn(catalog, version))
  }

  predicate ValidFact(layout: LayoutFact, structs: Structs) {
    && IsAcyclic(structs)
    && (layout.Resolved? ==> ValidLayout(structs, layout.fields))
    && forall name | name in structs :: StructWidth(structs, name).Some? && structs[name] != []
  }

  predicate ValidBearers(layout: LayoutFact, bearers: seq<Bearer>) {
    && (forall i, j | 0 <= i < j < |bearers| :: bearers[i].member != bearers[j].member)
    && forall bearer | bearer in bearers ::
         && (layout.Resolved? ==> Field(bearer.member, ScalarField(U16)) in layout.fields)
         && bearer.first == 0xEA00 <= bearer.last <= 0xEAFF
  }

  predicate ValidDomains(versions: seq<Version>, domains: map<Member, seq<Ranged<Domain>>>,
                               layout: (Version, bool) -> Option<LayoutFact>, check: DomainCheck)
  {
    forall member | member in domains ::
      && NoOverlaps(domains[member])
      && forall i, version | 0 <= i < |domains[member]| && version in versions
                             && domains[member][i].releases.Contains(version) ::
           check(layout(version, member.returned), member, domains[member][i].fact)
  }

  function CommandLayout(history: History<CommandDefinition>, version: Version, returned: bool): Option<LayoutFact> {
    match FactIn(history.definitions, version)
    case None => None
    case Some(definition) => if returned then definition.results else Some(definition.params)
  }

  function EventLayout(history: History<EventDefinition>, version: Version, returned: bool): Option<LayoutFact> {
    match FactIn(history.definitions, version)
    case None => None
    case Some(definition) => if returned then None else Some(definition.payload)
  }

  predicate ValidCommand(catalog: CatalogData, key: CommandKey, history: History<CommandDefinition>,
                               check: DomainCheck) {
    && (!key.scope.StandardCommand? ==> key.opcode / 0x400 == 0x3F)
    && ValidHistory(catalog, history)
    && (forall i | 0 <= i < |history.definitions| ::
          var definition := history.definitions[i].fact;
          && ValidFact(definition.params, definition.structs)
          && (definition.completion.CommandStatus? <==> definition.results.None?)
          && (definition.results.Some? ==> ValidFact(definition.results.value, definition.structs))
          && ValidBearers(definition.params, definition.bearers))
    && ValidDomains(Versions(catalog.releases), history.domains,
                    (version, returned) => CommandLayout(history, version, returned), check)
  }

  predicate ValidEvent(catalog: CatalogData, history: History<EventDefinition>, check: DomainCheck) {
    && ValidHistory(catalog, history)
    && (forall i | 0 <= i < |history.definitions| ::
          var definition := history.definitions[i].fact;
          ValidFact(definition.payload, definition.structs) && ValidBearers(definition.payload, definition.bearers))
    && ValidDomains(Versions(catalog.releases), history.domains,
                    (version, returned) => EventLayout(history, version, returned), check)
  }

  predicate ValidBinary(catalog: CatalogData, key: BinaryKey, ranged: seq<Ranged<()>>) {
    && Bounded(Versions(catalog.releases), ranged) && NoOverlaps(ranged)
    && PlatformOf(key.profile) == catalog.platform == Stm32wb
  }

  /** No release defines a status name or value twice. */
  predicate ValidStatuses(catalog: CatalogData) {
    && (forall key | key in catalog.statuses :: Bounded(Versions(catalog.releases), catalog.statuses[key]))
    && forall version, a, b, i, j |
         && version in Versions(catalog.releases)
         && a in catalog.statuses && b in catalog.statuses
         && 0 <= i < |catalog.statuses[a]| && 0 <= j < |catalog.statuses[b]| && (a != b || i != j)
         && catalog.statuses[a][i].releases.Contains(version) && catalog.statuses[b][j].releases.Contains(version) ::
           a.name != b.name && a.value != b.value
  }

  predicate Valid(catalog: CatalogData, check: DomainCheck) {
    && ValidReleases(catalog)
    && (forall key | key in catalog.binaries :: ValidBinary(catalog, key, catalog.binaries[key]))
    && (forall key | key in catalog.commands :: ValidCommand(catalog, key, catalog.commands[key], check))
    && (forall key | key in catalog.events :: ValidEvent(catalog, catalog.events[key], check))
    && (forall key | key in catalog.structDomains ::
          Bounded(Versions(catalog.releases), catalog.structDomains[key]) && NoOverlaps(catalog.structDomains[key]))
    && ValidStatuses(catalog)
  }
}

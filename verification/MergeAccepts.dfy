/** Which snapshots merge into a catalog that validates: those that are sound one by one, and
    of different releases (crates/stm32wb-catalog/src/merge.rs and lib.rs). */
module MergeAccepts {
  import opened Options
  import opened Layout
  import opened Release
  import opened Runs
  import opened Domains
  import opened Catalog
  import opened Merge
  import opened MergeFaithful
  import opened MergeCanonical

  // ----- what one snapshot must say

  /** The profiles a release has. */
  function Listed(platform: Platform, source: ReleaseSource): seq<Profile> {
    if platform.Stm32wb? then [FullExtended, Full, Light, HciLayerExtended, HciLayer, HciAdvScan] else source.profiles
  }

  /** A release lists no profiles on STM32WB, and otherwise ascending ones of the platform with
      the complete one among them. */
  predicate ReleaseFine(platform: Platform, source: ReleaseSource) {
    if platform.Stm32wb? then source.profiles == []
    else
      && (forall i, j | 0 <= i < j < |source.profiles| :: Rank(source.profiles[i]) < Rank(source.profiles[j]))
      && WbaFull in source.profiles && AllOf(source.profiles, Stm32wba)
  }

  predicate AllOf(profiles: seq<Profile>, platform: Platform) {
    forall profile | profile in profiles :: PlatformOf(profile) == platform
  }

  predicate AllIn(profiles: seq<Profile>, listed: seq<Profile>) {
    forall profile | profile in profiles :: profile in listed
  }

  /** A command or event is named, supported by some of the release's profiles, and documents
      no member twice. */
  predicate FactFine<D>(platform: Platform, source: ReleaseSource, fact: Fact<D>) {
    && fact.name != "" && fact.profiles != []
    && AllOf(fact.profiles, platform) && AllIn(fact.profiles, Listed(platform, source))
    && forall i, j | 0 <= i < j < |fact.domains| :: fact.domains[i].key != fact.domains[j].key
  }

  /** A layout is valid if it is known, and its structures end, have widths, and are not empty. */
  ghost predicate LayoutFine(layout: LayoutFact, structs: Structs) {
    && Acyclic(structs)
    && (layout.Resolved? ==> ValidLayout(structs, layout.fields))
    && forall name | name in structs :: StructWidth(structs, name).Some? && structs[name] != []
  }

  predicate BearersFine(layout: LayoutFact, bearers: seq<Bearer>) {
    && (forall i, j | 0 <= i < j < |bearers| :: bearers[i].member != bearers[j].member)
    && forall bearer | bearer in bearers ::
         && (layout.Resolved? ==> Field(bearer.member, ScalarField(U16)) in layout.fields)
         && bearer.first == 59904 <= bearer.last <= 60159
  }

  ghost predicate CommandFine(key: CommandKey, definition: CommandDefinition) {
    && (key.scope == StandardCommand || key.opcode / 1024 == 63)
    && LayoutFine(definition.params, definition.structs)
    && (match definition.results
        case None => definition.completion == CommandStatus
        case Some(results) => definition.completion == CommandComplete && LayoutFine(results, definition.structs))
    && BearersFine(definition.params, definition.bearers)
  }

  ghost predicate EventFine(definition: EventDefinition) {
    LayoutFine(definition.payload, definition.structs) && BearersFine(definition.payload, definition.bearers)
  }

  /** Every documented value suits the layout of its member. */
  predicate DocumentsFine(domains: seq<Keyed<Member, Domain>>, params: Option<LayoutFact>, results: Option<LayoutFact>,
                          check: DomainCheck)
  {
    forall d | d in domains :: check(if d.key.returned then results else params, d.key, d.fact)
  }

  ghost predicate CommandItemFine(platform: Platform, source: ReleaseSource,
                                  item: Keyed<CommandKey, Fact<CommandDefinition>>, check: DomainCheck) {
    && FactFine(platform, source, item.fact) && CommandFine(item.key, item.fact.definition)
    && DocumentsFine(item.fact.domains, Some(item.fact.definition.params), item.fact.definition.results, check)
  }

  ghost predicate EventItemFine(platform: Platform, source: ReleaseSource,
                                item: Keyed<EventKey, Fact<EventDefinition>>, check: DomainCheck) {
    && FactFine(platform, source, item.fact) && EventFine(item.fact.definition)
    && DocumentsFine(item.fact.domains, Some(item.fact.definition.payload), None, check)
  }

  /** No status name or value is listed twice. */
  predicate StatusesFine(statuses: seq<Keyed<StatusKey, ()>>) {
    forall i, j | 0 <= i < j < |statuses| ::
      statuses[i].key.name != statuses[j].key.name && statuses[i].key.value != statuses[j].key.value
  }

  ghost predicate SnapshotFine(platform: Platform, snapshot: Snapshot, check: DomainCheck) {
    && ReleaseFine(platform, snapshot.source)
    && (forall item | item in snapshot.binaries :: platform == Stm32wb == PlatformOf(item.key.profile))
    && (forall item | item in snapshot.commands :: CommandItemFine(platform, snapshot.source, item, check))
    && (forall item | item in snapshot.events :: EventItemFine(platform, snapshot.source, item, check))
    && StatusesFine(snapshot.statuses)
  }

  /** Snapshots of ascending releases, each sound by itself. */
  ghost predicate AllFine(platform: Platform, snapshots: seq<Snapshot>, check: DomainCheck) {
    && snapshots != [] && StrictlySorted(snapshots)
    && forall i | 0 <= i < |snapshots| :: SnapshotFine(platform, snapshots[i], check)
  }

  // ----- facts in maximal ranges

  lemma {:induction false} FactHeld<T>(ranged: seq<Ranged<T>>, version: Version) returns (k: nat)
    requires FactIn(ranged, version).Some?
    ensures k < |ranged| && ranged[k].releases.Contains(version) && FactIn(ranged, version) == Some(ranged[k].fact)
  {
    k := IndexIn(ranged, version).value;
  }

  lemma {:induction false} PresentIsFact<T>(ranged: seq<Ranged<T>>, version: Version)
    ensures Present(ranged, version) <==> FactIn(ranged, version).Some?
  {
  }

  lemma {:induction false} MaximalValid<T>(ranged: seq<Ranged<T>>, versions: seq<Version>)
    requires Maximal(ranged, versions)
    ensures Bounded(versions, ranged) && NoOverlaps(ranged)
  {
    forall i, j | 0 <= i < j < |ranged| ensures !ranged[i].releases.Overlaps(ranged[j].releases) {
      assert Before(ranged[i].releases.last, ranged[j].releases.first);
    }
  }

  /** Every range starts in a release that has its fact. */
  lemma {:induction false} FirstRelease<T>(ranged: seq<Ranged<T>>, versions: seq<Version>, k: nat) returns (i: nat)
    requires Maximal(ranged, versions) && k < |ranged|
    ensures i < |versions| && ranged[k].releases.Contains(versions[i]) && FactIn(ranged, versions[i]) == Some(ranged[k].fact)
  {
    i := PositionOf(versions, ranged[k].releases.first);
    FactInside(ranged, versions, k, versions[i]);
  }

  lemma {:induction false} RecordedItem<K, V>(items: seq<Keyed<K, V>>, key: K)
    ensures var fact := Recorded(items, key);
            && (fact.Some? ==> Keyed(key, fact.value) in items)
            && (fact.None? ==> forall item | item in items :: item.key != key)
  {
    if items != [] {
      var last := |items| - 1;
      RecordedItem(items[..last], key);
      assert items == items[..last] + [items[last]];
    }
  }

  lemma {:induction false} RecordedOnly<K, V>(items: seq<Keyed<K, V>>, item: Keyed<K, V>)
    requires DistinctKeys(items) && item in items
    ensures Recorded(items, item.key) == Some(item.fact)
  {
    RecordedItem(items, item.key);
    var i :| 0 <= i < |items| && items[i] == item;
    var j :| 0 <= j < |items| && items[j] == Keyed(item.key, Recorded(items, item.key).value);
  }

  /** Entries that never repeat a release come from items that never repeat a key. */
  lemma {:induction false} KeyTwice<K, V>(index: nat, items: seq<Keyed<K, V>>, i: nat, j: nat)
    requires i < j < |items| && items[i].key == items[j].key
    ensures |OfKey(index, items, items[j].key)| >= 2
  {
    var last := |items| - 1;
    if j < last {
      KeyTwice(index, items[..last], i, j);
    } else {
      assert items[..last][i] == items[i];
      KeyOnce(index, items[..last], i);
    }
  }

  lemma {:induction false} KeyOnce<K, V>(index: nat, items: seq<Keyed<K, V>>, i: nat)
    requires i < |items|
    ensures |OfKey(index, items, items[i].key)| >= 1
  {
    var last := |items| - 1;
    if i < last {
      KeyOnce(index, items[..last], i);
    }
  }

  lemma {:induction false} EntriesHold<K, V>(facts: seq<Entry<seq<Keyed<K, V>>>>, key: K, n: nat) returns (at: nat)
    requires n < |facts|
    ensures at + |OfKey(facts[n].index, facts[n].fact, key)| <= |EntriesOf(facts, key)|
    ensures EntriesOf(facts, key)[at..at + |OfKey(facts[n].index, facts[n].fact, key)|]
            == OfKey(facts[n].index, facts[n].fact, key)
  {
    var last := |facts| - 1;
    var before := EntriesOf(facts[..last], key);
    if n < last {
      at := EntriesHold(facts[..last], key, n);
      assert EntriesOf(facts, key)[..|before|] == before;
    } else {
      at := |before|;
    }
  }

  lemma {:induction false} RepeatsShow<K(!new), V>(facts: seq<Entry<seq<Keyed<K, V>>>>, n: nat, i: nat, j: nat)
    requires n < |facts| && i < j < |facts[n].fact| && facts[n].fact[i].key == facts[n].fact[j].key
    ensures !Strict(EntriesOf(facts, facts[n].fact[j].key))
  {
    var items := facts[n].fact;
    var key := items[j].key;
    KeyTwice(facts[n].index, items, i, j);
    OfKeyIndex(facts[n].index, items, key);
    var at := EntriesHold(facts, key, n);
    var entries, twice := EntriesOf(facts, key), OfKey(facts[n].index, items, key);
    assert entries[at] == entries[at..at + |twice|][0] == twice[0];
    assert entries[at + 1] == entries[at..at + |twice|][1] == twice[1];
  }

  lemma {:induction false} StrictDistinct<K(!new), V>(facts: seq<Entry<seq<Keyed<K, V>>>>, n: nat)
    requires n < |facts| && forall key :: Strict(EntriesOf(facts, key))
    ensures DistinctKeys(facts[n].fact)
  {
    var items := facts[n].fact;
    forall i, j | 0 <= i < j < |items| ensures items[i].key != items[j].key {
      if items[i].key == items[j].key {
        RepeatsShow(facts, n, i, j);
      }
    }
  }

  // ----- what a merged history shows

  type Listing<K, D> = Snapshot -> seq<Keyed<K, Fact<D>>>

  /** The releases are the snapshots', in order. */
  ghost predicate Releases(versions: seq<Version>, snapshots: seq<Snapshot>) {
    && Ascending(versions) && |versions| == |snapshots|
    && forall i | 0 <= i < |snapshots| :: versions[i] == snapshots[i].source.version
  }

  /** A history of maximal ranges showing every release what its snapshot lists for the key. */
  ghost predicate Follows<K, D(!new)>(history: History<D>, versions: seq<Version>, snapshots: seq<Snapshot>,
                                      facts: Listing<K, D>, key: K)
  {
    && Releases(versions, snapshots) && MaximalHistory(history, versions) && history.definitions != []
    && forall i | 0 <= i < |snapshots| :: Shows(Some(history), versions[i], Recorded(facts(snapshots[i]), key))
  }

  lemma {:induction false} EntryItem<K, V>(facts: seq<Entry<seq<Keyed<K, V>>>>, key: K, k: nat) returns (n: nat)
    requires k < |EntriesOf(facts, key)|
    ensures n < |facts| && Keyed(key, EntriesOf(facts, key)[k].fact) in facts[n].fact
  {
    var last := |facts| - 1;
    var before := EntriesOf(facts[..last], key);
    if k < |before| {
      n := EntryItem(facts[..last], key, k);
    } else {
      n := last;
      OfKeyItem(facts[last].index, facts[last].fact, key, k - |before|);
    }
  }

  lemma {:induction false} OfKeyItem<K, V>(index: nat, items: seq<Keyed<K, V>>, key: K, k: nat)
    requires k < |OfKey(index, items, key)|
    ensures Keyed(key, OfKey(index, items, key)[k].fact) in items
  {
    var last := |items| - 1;
    if k < |OfKey(index, items[..last], key)| {
      OfKeyItem(index, items[..last], key, k);
    } else {
      assert items[last] == Keyed(key, OfKey(index, items, key)[k].fact);
    }
  }

  ghost predicate NoneTwice<K, D(!new)>(snapshots: seq<Snapshot>, facts: Listing<K, D>) {
    forall i | 0 <= i < |snapshots| ::
      && DistinctKeys(facts(snapshots[i]))
      && forall item | item in facts(snapshots[i]) :: DistinctKeys(item.fact.domains)
  }

  /** No member documented twice in a release: no overlapping ranges. */
  lemma {:induction false} DomainsApart<K, D(!new)>(history: History<D>, versions: seq<Version>, snapshots: seq<Snapshot>,
                                                    facts: Listing<K, D>, key: K, member: Member)
    requires Releases(versions, snapshots) && NoneTwice(snapshots, facts)
    requires IsHistory(history, EntriesOf(FactsOf(snapshots, facts), key), versions)
    requires member in history.domains
    ensures NoOverlaps(history.domains[member])
  {
    var entries := EntriesOf(FactsOf(snapshots, facts), key);
    var documents := Project(entries, Documenting());
    FactsOrdered(snapshots, facts);
    EntriesStrict(FactsOf(snapshots, facts), key);
    forall k | 0 <= k < |documents| ensures DistinctKeys(documents[k].fact) {
      var n := EntryItem(FactsOf(snapshots, facts), key, k);
    }
    assert MergedAs(history.domains, EntriesOf(documents, member), member, versions);
    hide IsHistory, MergedAs, DistinctKeys, FactsOf, RangesOf;
    assert Strict(documents);
    EntriesStrict(documents, member);
    RangesMaximal(EntriesOf(documents, member), versions);
    MaximalValid(RangesOf(EntriesOf(documents, member), versions), versions);
    SameRanges(history.domains, EntriesOf(documents, member), member, versions);
  }

  lemma {:induction false} SameRanges<K, T>(table: map<K, seq<Ranged<T>>>, entries: seq<Entry<T>>, key: K,
                                            versions: seq<Version>)
    requires MergedAs(table, entries, key, versions) && key in table
    ensures Below(entries, |versions|) && table[key] == RangesOf(entries, versions)
  {
  }

  lemma {:induction false} MergedFollows<K, D(!new)>(table: map<K, History<D>>, versions: seq<Version>,
                                                     snapshots: seq<Snapshot>, facts: Listing<K, D>, key: K)
    requires Releases(versions, snapshots) && key in table
    requires forall n | 0 <= n < |snapshots| :: DistinctKeys(facts(snapshots[n]))
    requires HistoryAs(table, EntriesOf(FactsOf(snapshots, facts), key), key, versions)
    requires forall member | member in table[key].domains :: NoOverlaps(table[key].domains[member])
    ensures Follows(table[key], versions, snapshots, facts, key)
  {
    HistoriesMaximal(table, snapshots, facts, versions, key);
    forall i | 0 <= i < |snapshots| ensures Shows(Some(table[key]), versions[i], Recorded(facts(snapshots[i]), key)) {
      HistoriesShown(table, snapshots, facts, versions, key, i);
    }
    SomeDefinition(table[key], EntriesOf(FactsOf(snapshots, facts), key), versions);
    hide *;
  }

  lemma {:induction false} SomeDefinition<D(!new)>(history: History<D>, entries: seq<Entry<Fact<D>>>, versions: seq<Version>)
    requires IsHistory(history, entries, versions) && entries != []
    ensures history.definitions != []
  {
    assert Project(entries, DefinedAs()) != [];
  }

  // ----- sound snapshots give valid histories

  ghost predicate Lists(catalog: CatalogData, snapshots: seq<Snapshot>) {
    Releases(Versions(catalog.releases), snapshots) && ValidReleases(catalog) && catalog.releases == Sources(snapshots)
  }

  /** What every snapshot lists for the key is sound. */
  ghost predicate KeyFine<K, D(!new)>(catalog: CatalogData, snapshots: seq<Snapshot>, facts: Listing<K, D>, key: K) {
    forall i, fact | 0 <= i < |snapshots| && Recorded(facts(snapshots[i]), key) == Some(fact) ::
      FactFine(catalog.platform, snapshots[i].source, fact)
  }

  lemma {:induction false} ListedIn(catalog: CatalogData, snapshots: seq<Snapshot>, i: nat)
    requires Lists(catalog, snapshots) && i < |snapshots|
    ensures ProfilesIn(catalog, snapshots[i].source.version) == Listed(catalog.platform, snapshots[i].source)
  {
    ProfilesListed(catalog, i);
  }

  lemma {:induction false} NormalizedIs(profiles: seq<Profile>)
    ensures SortedUnique(Normalized(profiles))
    ensures forall profile :: profile in Normalized(profiles) <==> profile in profiles
    ensures Normalized(profiles) != [] <==> profiles != []
  {
    NormalizedSorts(profiles, 0);
    if profiles != [] {
      assert profiles[0] in Normalized(profiles);
    }
    if Normalized(profiles) != [] {
      assert Normalized(profiles)[0] in profiles;
    }
  }

  lemma {:induction false} NamedAlways<K, D(!new)>(catalog: CatalogData, history: History<D>, snapshots: seq<Snapshot>,
                                                   facts: Listing<K, D>, key: K, k: nat)
    requires Lists(catalog, snapshots) && Follows(history, Versions(catalog.releases), snapshots, facts, key)
    requires KeyFine(catalog, snapshots, facts, key) && k < |history.names|
    ensures history.names[k].fact != ""
  {
    var versions := Versions(catalog.releases);
    hide Maximal, ValidReleases, FactIn;
    var i := FirstRelease(history.names, versions, k);
    var fact := Recorded(facts(snapshots[i]), key);
    assert Shows(Some(history), versions[i], fact);
    assert FactFine(catalog.platform, snapshots[i].source, fact.value);
  }

  lemma {:induction false} SupportIn<K, D(!new)>(catalog: CatalogData, history: History<D>, snapshots: seq<Snapshot>,
                                                 facts: Listing<K, D>, key: K, k: nat, i: nat)
    requires Lists(catalog, snapshots) && Follows(history, Versions(catalog.releases), snapshots, facts, key)
    requires KeyFine(catalog, snapshots, facts, key) && k < |history.availability| && i < |snapshots|
    requires history.availability[k].releases.Contains(snapshots[i].source.version)
    ensures var profiles := history.availability[k].fact;
            && profiles != [] && SortedUnique(profiles) && AllOf(profiles, catalog.platform)
            && AllIn(profiles, ProfilesIn(catalog, snapshots[i].source.version))
  {
    var versions := Versions(catalog.releases);
    FactInside(history.availability, versions, k, versions[i]);
    hide Maximal, FactIn, Normalized, SortedUnique, ProfilesIn;
    ListedIn(catalog, snapshots, i);
    hide ValidReleases;
    var fact := Recorded(facts(snapshots[i]), key);
    assert Shows(Some(history), versions[i], fact);
    assert FactFine(catalog.platform, snapshots[i].source, fact.value);
    NormalizedIs(fact.value.profiles);
  }

  lemma {:induction false} SupportSorted<K, D(!new)>(catalog: CatalogData, history: History<D>, snapshots: seq<Snapshot>,
                                                     facts: Listing<K, D>, key: K, k: nat)
    requires Lists(catalog, snapshots) && Follows(history, Versions(catalog.releases), snapshots, facts, key)
    requires KeyFine(catalog, snapshots, facts, key) && k < |history.availability|
    ensures var profiles := history.availability[k].fact;
            profiles != [] && SortedUnique(profiles) && AllOf(profiles, catalog.platform)
  {
    var versions := Versions(catalog.releases);
    assert Maximal(history.availability, versions) && Releases(versions, snapshots);
    hide *;
    var first := FirstRelease(history.availability, versions, k);
    ReleaseOf(versions, snapshots, first);
    SupportIn(catalog, history, snapshots, facts, key, k, first);
  }

  lemma {:induction false} SupportListed<K, D(!new)>(catalog: CatalogData, history: History<D>, snapshots: seq<Snapshot>,
                                                     facts: Listing<K, D>, key: K, k: nat, version: Version)
    requires Lists(catalog, snapshots) && Follows(history, Versions(catalog.releases), snapshots, facts, key)
    requires KeyFine(catalog, snapshots, facts, key) && k < |history.availability|
    requires version in Versions(catalog.releases) && history.availability[k].releases.Contains(version)
    ensures AllIn(history.availability[k].fact, ProfilesIn(catalog, version))
  {
    var versions := Versions(catalog.releases);
    assert Releases(versions, snapshots);
    hide *;
    var i :| 0 <= i < |versions| && versions[i] == version;
    ReleaseOf(versions, snapshots, i);
    SupportIn(catalog, history, snapshots, facts, key, k, i);
  }

  lemma {:induction false} ReleaseOf(versions: seq<Version>, snapshots: seq<Snapshot>, i: nat)
    requires Releases(versions, snapshots) && i < |versions|
    ensures i < |snapshots| && versions[i] == snapshots[i].source.version
  {
  }

  lemma {:induction false} SupportValid<K, D(!new)>(catalog: CatalogData, history: History<D>, snapshots: seq<Snapshot>,
                                                    facts: Listing<K, D>, key: K, k: nat)
    requires Lists(catalog, snapshots) && Follows(history, Versions(catalog.releases), snapshots, facts, key)
    requires KeyFine(catalog, snapshots, facts, key) && k < |history.availability|
    ensures ValidAvailability(catalog, history.availability[k])
  {
    var versions, entry := Versions(catalog.releases), history.availability[k];
    hide *;
    SupportSorted(catalog, history, snapshots, facts, key, k);
    forall version | version in versions && entry.releases.Contains(version)
      ensures AllIn(entry.fact, ProfilesIn(catalog, version))
    {
      SupportListed(catalog, history, snapshots, facts, key, k, version);
    }
    Supported(catalog, entry);
  }

  lemma {:induction false} Supported(catalog: CatalogData, entry: Ranged<seq<Profile>>)
    requires entry.fact != [] && SortedUnique(entry.fact) && AllOf(entry.fact, catalog.platform)
    requires forall version | version in Versions(catalog.releases) && entry.releases.Contains(version) ::
               AllIn(entry.fact, ProfilesIn(catalog, version))
    ensures ValidAvailability(catalog, entry)
  {
    hide SortedUnique, ProfilesIn, PlatformOf;
  }

  lemma {:induction false} PresentAlike<K, D(!new)>(history: History<D>, versions: seq<Version>, snapshots: seq<Snapshot>,
                                                    facts: Listing<K, D>, key: K, version: Version)
    requires Follows(history, versions, snapshots, facts, key) && version in versions
    ensures Present(history.names, version) <==> Present(history.definitions, version)
    ensures Present(history.availability, version) <==> Present(history.definitions, version)
  {
    PresentIsFact(history.names, version);
    PresentIsFact(history.availability, version);
    PresentIsFact(history.definitions, version);
    hide Present, FactIn, Maximal;
    var i :| 0 <= i < |versions| && versions[i] == version;
    assert Shows(Some(history), versions[i], Recorded(facts(snapshots[i]), key));
  }

  lemma {:induction false} HistoryValid<K, D(!new)>(catalog: CatalogData, history: History<D>, snapshots: seq<Snapshot>,
                                                    facts: Listing<K, D>, key: K)
    requires Lists(catalog, snapshots) && Follows(history, Versions(catalog.releases), snapshots, facts, key)
    requires KeyFine(catalog, snapshots, facts, key)
    ensures ValidHistory(catalog, history)
  {
    var versions := Versions(catalog.releases);
    assert MaximalHistory(history, versions) && history.definitions != [];
    MaximalValid(history.names, versions);
    MaximalValid(history.availability, versions);
    MaximalValid(history.definitions, versions);
    forall version | version in versions
      ensures Present(history.names, version) <==> Present(history.definitions, version)
      ensures Present(history.availability, version) <==> Present(history.definitions, version)
    {
      PresentAlike(history, versions, snapshots, facts, key, version);
    }
    forall k | 0 <= k < |history.names| ensures history.names[k].fact != "" {
      NamedAlways(catalog, history, snapshots, facts, key, k);
    }
    forall k | 0 <= k < |history.availability| ensures ValidAvailability(catalog, history.availability[k]) {
      SupportValid(catalog, history, snapshots, facts, key, k);
    }
    hide Follows, Lists, KeyFine, Maximal, NoOverlaps, Bounded, Present, ValidAvailability;
  }

  /** A definition's range is that of some snapshot's definition. */
  lemma {:induction false} DefinitionSource<K, D(!new)>(history: History<D>, versions: seq<Version>, snapshots: seq<Snapshot>,
                                                        facts: Listing<K, D>, key: K, k: nat)
    returns (i: nat, fact: Fact<D>)
    requires Follows(history, versions, snapshots, facts, key) && k < |history.definitions|
    ensures i < |snapshots| && Recorded(facts(snapshots[i]), key) == Some(fact)
    ensures fact.definition == history.definitions[k].fact
  {
    hide Maximal, FactIn;
    i := FirstRelease(history.definitions, versions, k);
    assert Shows(Some(history), versions[i], Recorded(facts(snapshots[i]), key));
    fact := Recorded(facts(snapshots[i]), key).value;
  }

  /** A documented value holds in a release whose snapshot documents it for the definition. */
  lemma {:induction false} DocumentSource<K, D(!new)>(history: History<D>, versions: seq<Version>, snapshots: seq<Snapshot>,
                                                      facts: Listing<K, D>, key: K, member: Member, k: nat, version: Version)
    returns (i: nat, fact: Fact<D>)
    requires Follows(history, versions, snapshots, facts, key) && version in versions
    requires member in history.domains && k < |history.domains[member]| && history.domains[member][k].releases.Contains(version)
    ensures i < |snapshots| && Recorded(facts(snapshots[i]), key) == Some(fact)
    ensures FactIn(history.definitions, version) == Some(fact.definition)
    ensures Keyed(member, history.domains[member][k].fact) in fact.domains
  {
    i :| 0 <= i < |versions| && versions[i] == version;
    assert Shows(Some(history), versions[i], Recorded(facts(snapshots[i]), key));
    FactInside(history.domains[member], versions, k, version);
    hide Maximal, FactIn;
    assert At(history.domains, member, version) == FactIn(history.domains[member], version);
    fact := Recorded(facts(snapshots[i]), key).value;
    RecordedItem(fact.domains, member);
  }

  // ----- sound snapshots give a valid catalog

  lemma {:induction false} ReleasesValid(catalog: CatalogData, snapshots: seq<Snapshot>, check: DomainCheck)
    requires IsCatalog(catalog, catalog.platform, snapshots) && AllFine(catalog.platform, snapshots, check)
    ensures Lists(catalog, snapshots)
  {
    hide MergedAs, HistoryAs, CommandItemFine, EventItemFine, StatusesFine, Before;
    var versions := Versions(catalog.releases);
    forall i, j | 0 <= i < j < |versions| ensures Before(versions[i], versions[j]) {
      assert Before(snapshots[i].source.version, snapshots[j].source.version);
    }
    forall source | source in catalog.releases ensures ReleaseFine(catalog.platform, source) {
      var i :| 0 <= i < |snapshots| && catalog.releases[i] == source;
      assert SnapshotFine(catalog.platform, snapshots[i], check);
    }
  }

  lemma {:induction false} RangesValid<K, T>(table: map<K, seq<Ranged<T>>>, snapshots: seq<Snapshot>,
                                             facts: Snapshot -> seq<Keyed<K, T>>, versions: seq<Version>, key: K)
    requires Releases(versions, snapshots) && key in table
    requires forall n | 0 <= n < |snapshots| :: DistinctKeys(facts(snapshots[n]))
    requires MergedAs(table, EntriesOf(FactsOf(snapshots, facts), key), key, versions)
    ensures Maximal(table[key], versions) && Bounded(versions, table[key]) && NoOverlaps(table[key])
  {
    var entries := EntriesOf(FactsOf(snapshots, facts), key);
    FactsOrdered(snapshots, facts);
    EntriesStrict(FactsOf(snapshots, facts), key);
    SameRanges(table, entries, key, versions);
    hide MergedAs, EntriesOf, DistinctKeys, RangesOf;
    RangesMaximal(entries, versions);
    MaximalValid(table[key], versions);
  }

  /** Every key of a table is listed by some snapshot. */
  lemma {:induction false} SomeItem<K, T>(table: map<K, seq<Ranged<T>>>, snapshots: seq<Snapshot>,
                                          facts: Snapshot -> seq<Keyed<K, T>>, versions: seq<Version>, key: K)
    returns (n: nat, fact: T)
    requires key in table && MergedAs(table, EntriesOf(FactsOf(snapshots, facts), key), key, versions)
    ensures n < |snapshots| && Keyed(key, fact) in facts(snapshots[n])
  {
    fact := EntriesOf(FactsOf(snapshots, facts), key)[0].fact;
    n := EntryItem(FactsOf(snapshots, facts), key, 0);
  }

  lemma {:induction false} BinaryValid(catalog: CatalogData, snapshots: seq<Snapshot>, check: DomainCheck, key: BinaryKey)
    requires IsCatalog(catalog, catalog.platform, snapshots) && AllFine(catalog.platform, snapshots, check)
    requires AllUnrepeated(snapshots) && key in catalog.binaries
    ensures ValidBinary(catalog, key, catalog.binaries[key])
  {
    ReleasesValid(catalog, snapshots, check);
    hide EntriesOf, MergedAs, HistoryAs, CommandItemFine, EventItemFine, StatusesFine, ReleaseFine, ValidReleases,
      DistinctKeys, Maximal, StrictlySorted, Ascending;
    var versions := Versions(catalog.releases);
    assert MergedAs(catalog.binaries, EntriesOf(FactsOf(snapshots, BINARIES), key), key, versions);
    RangesValid(catalog.binaries, snapshots, BINARIES, versions, key);
    var n, fact := SomeItem(catalog.binaries, snapshots, BINARIES, versions, key);
    assert SnapshotFine(catalog.platform, snapshots[n], check) && Keyed(key, fact) in snapshots[n].binaries;
  }

  lemma {:induction false} StructDomainValid(catalog: CatalogData, snapshots: seq<Snapshot>, check: DomainCheck,
                                             key: StructMember)
    requires IsCatalog(catalog, catalog.platform, snapshots) && AllFine(catalog.platform, snapshots, check)
    requires AllUnrepeated(snapshots) && key in catalog.structDomains
    ensures Bounded(Versions(catalog.releases), catalog.structDomains[key]) && NoOverlaps(catalog.structDomains[key])
  {
    ReleasesValid(catalog, snapshots, check);
    hide EntriesOf, MergedAs, HistoryAs, AllFine, ValidReleases, DistinctKeys, Maximal, Ascending;
    var versions := Versions(catalog.releases);
    assert MergedAs(catalog.structDomains, EntriesOf(FactsOf(snapshots, STRUCT_DOMAINS), key), key, versions);
    RangesValid(catalog.structDomains, snapshots, STRUCT_DOMAINS, versions, key);
  }

  lemma {:induction false} HistoryFollows<K, D(!new)>(catalog: CatalogData, table: map<K, History<D>>,
                                                      snapshots: seq<Snapshot>, facts: Listing<K, D>, key: K)
    requires Lists(catalog, snapshots) && NoneTwice(snapshots, facts) && key in table
    requires HistoryAs(table, EntriesOf(FactsOf(snapshots, facts), key), key, Versions(catalog.releases))
    ensures Follows(table[key], Versions(catalog.releases), snapshots, facts, key)
    ensures forall member | member in table[key].domains :: NoOverlaps(table[key].domains[member])
  {
    var versions := Versions(catalog.releases);
    hide ValidReleases, EntriesOf, FactsOf, NoOverlaps, IsHistory, DistinctKeys, Follows;
    forall member | member in table[key].domains ensures NoOverlaps(table[key].domains[member]) {
      DomainsApart(table[key], versions, snapshots, facts, key, member);
    }
    MergedFollows(table, versions, snapshots, facts, key);
  }

  lemma {:induction false} LayoutValid(layout: LayoutFact, structs: Structs)
    ensures LayoutFine(layout, structs) <==> ValidFact(layout, structs)
  {
    hide ValidLayout, StructWidth, Acyclic;
  }

  // ----- commands

  lemma {:induction false} CommandsOnce(platform: Platform, snapshots: seq<Snapshot>, check: DomainCheck)
    requires AllFine(platform, snapshots, check) && AllUnrepeated(snapshots)
    ensures NoneTwice(snapshots, COMMANDS)
  {
    hide ReleaseFine, CommandFine, EventItemFine, StatusesFine, DocumentsFine, AllOf, AllIn, StrictlySorted;
    forall i | 0 <= i < |snapshots|
      ensures DistinctKeys(snapshots[i].commands)
      ensures forall item | item in snapshots[i].commands :: DistinctKeys(item.fact.domains)
    {
      assert SnapshotFine(platform, snapshots[i], check) && Unrepeated(snapshots[i]);
    }
  }

  lemma {:induction false} CommandListed(platform: Platform, snapshots: seq<Snapshot>, check: DomainCheck, key: CommandKey,
                                         i: nat, fact: Fact<CommandDefinition>)
    requires AllFine(platform, snapshots, check) && i < |snapshots| && Recorded(COMMANDS(snapshots[i]), key) == Some(fact)
    ensures CommandItemFine(platform, snapshots[i].source, Keyed(key, fact), check)
  {
    RecordedItem(snapshots[i].commands, key);
    hide ReleaseFine, CommandItemFine, EventItemFine, StatusesFine, StrictlySorted, Recorded;
    assert SnapshotFine(platform, snapshots[i], check);
  }

  lemma {:induction false} CommandFollows(catalog: CatalogData, snapshots: seq<Snapshot>, check: DomainCheck, key: CommandKey)
    requires IsCatalog(catalog, catalog.platform, snapshots) && AllFine(catalog.platform, snapshots, check)
    requires AllUnrepeated(snapshots) && key in catalog.commands
    ensures Lists(catalog, snapshots) && KeyFine(catalog, snapshots, COMMANDS, key)
    ensures Follows(catalog.commands[key], Versions(catalog.releases), snapshots, COMMANDS, key)
    ensures forall member | member in catalog.commands[key].domains :: NoOverlaps(catalog.commands[key].domains[member])
  {
    ReleasesValid(catalog, snapshots, check);
    CommandsOnce(catalog.platform, snapshots, check);
    hide EntriesOf, MergedAs, HistoryAs, AllFine, AllUnrepeated, Lists, NoneTwice, Follows, NoOverlaps, FactFine, CommandFine,
      DocumentsFine, Recorded;
    assert HistoryAs(catalog.commands, EntriesOf(FactsOf(snapshots, COMMANDS), key), key, Versions(catalog.releases));
    HistoryFollows(catalog, catalog.commands, snapshots, COMMANDS, key);
    forall i, fact | 0 <= i < |snapshots| && Recorded(snapshots[i].commands, key) == Some(fact)
      ensures FactFine(catalog.platform, snapshots[i].source, fact)
    {
      CommandListed(catalog.platform, snapshots, check, key, i, fact);
    }
  }

  lemma {:induction false} CommandDefined(catalog: CatalogData, snapshots: seq<Snapshot>, check: DomainCheck, key: CommandKey,
                                          k: nat)
    requires AllFine(catalog.platform, snapshots, check) && key in catalog.commands
    requires Follows(catalog.commands[key], Versions(catalog.releases), snapshots, COMMANDS, key)
    requires k < |catalog.commands[key].definitions|
    ensures CommandFine(key, catalog.commands[key].definitions[k].fact)
  {
    hide *;
    var i, fact := DefinitionSource(catalog.commands[key], Versions(catalog.releases), snapshots, COMMANDS, key, k);
    CommandListed(catalog.platform, snapshots, check, key, i, fact);
    CommandParts(catalog.platform, snapshots[i].source, Keyed(key, fact), check);
  }

  lemma {:induction false} CommandParts(platform: Platform, source: ReleaseSource,
                                        item: Keyed<CommandKey, Fact<CommandDefinition>>, check: DomainCheck)
    requires CommandItemFine(platform, source, item, check)
    ensures CommandFine(item.key, item.fact.definition)
    ensures DocumentsFine(item.fact.domains, Some(item.fact.definition.params), item.fact.definition.results, check)
  {
  }

  lemma {:induction false} CommandDocumented(catalog: CatalogData, snapshots: seq<Snapshot>, check: DomainCheck,
                                             key: CommandKey, member: Member, k: nat, version: Version)
    requires AllFine(catalog.platform, snapshots, check) && key in catalog.commands && version in Versions(catalog.releases)
    requires Follows(catalog.commands[key], Versions(catalog.releases), snapshots, COMMANDS, key)
    requires member in catalog.commands[key].domains && k < |catalog.commands[key].domains[member]|
    requires catalog.commands[key].domains[member][k].releases.Contains(version)
    ensures check(CommandLayout(catalog.commands[key], version, member.returned), member,
                  catalog.commands[key].domains[member][k].fact)
  {
    hide *;
    var history := catalog.commands[key];
    var i, fact := DocumentSource(history, Versions(catalog.releases), snapshots, COMMANDS, key, member, k, version);
    CommandListed(catalog.platform, snapshots, check, key, i, fact);
    CommandParts(catalog.platform, snapshots[i].source, Keyed(key, fact), check);
    CommandChecked(history, fact, member, history.domains[member][k].fact, version, check);
  }

  lemma {:induction false} CommandChecked(history: History<CommandDefinition>, fact: Fact<CommandDefinition>, member: Member,
                                          documented: Domain, version: Version, check: DomainCheck)
    requires DocumentsFine(fact.domains, Some(fact.definition.params), fact.definition.results, check)
    requires Keyed(member, documented) in fact.domains && FactIn(history.definitions, version) == Some(fact.definition)
    ensures check(CommandLayout(history, version, member.returned), member, documented)
  {
    hide FactIn;
  }

  lemma {:induction false} CommandValid(catalog: CatalogData, snapshots: seq<Snapshot>, check: DomainCheck, key: CommandKey)
    requires IsCatalog(catalog, catalog.platform, snapshots) && AllFine(catalog.platform, snapshots, check)
    requires AllUnrepeated(snapshots) && key in catalog.commands
    ensures ValidCommand(catalog, key, catalog.commands[key], check)
  {
    var history := catalog.commands[key];
    CommandFollows(catalog, snapshots, check, key);
    assert history.definitions != [];
    hide *;
    HistoryValid(catalog, history, snapshots, COMMANDS, key);
    forall k | 0 <= k < |history.definitions| ensures CommandFine(key, history.definitions[k].fact) {
      CommandDefined(catalog, snapshots, check, key, k);
    }
    forall member, k, version |
      && member in history.domains && 0 <= k < |history.domains[member]| && version in Versions(catalog.releases)
      && history.domains[member][k].releases.Contains(version)
      ensures check(CommandLayout(history, version, member.returned), member, history.domains[member][k].fact)
    {
      CommandDocumented(catalog, snapshots, check, key, member, k, version);
    }
    ValidFromParts(catalog, key, history, check);
  }

  lemma {:induction false} ValidFromParts(catalog: CatalogData, key: CommandKey, history: History<CommandDefinition>,
                                          check: DomainCheck)
    requires ValidHistory(catalog, history) && history.definitions != []
    requires forall k | 0 <= k < |history.definitions| :: CommandFine(key, history.definitions[k].fact)
    requires forall member | member in history.domains :: NoOverlaps(history.domains[member])
    requires forall member, k, version |
               && member in history.domains && 0 <= k < |history.domains[member]| && version in Versions(catalog.releases)
               && history.domains[member][k].releases.Contains(version) ::
                 check(CommandLayout(history, version, member.returned), member, history.domains[member][k].fact)
    ensures ValidCommand(catalog, key, history, check)
  {
    assert CommandFine(key, history.definitions[0].fact);
    hide ValidHistory, NoOverlaps, CommandLayout, LayoutFine, ValidFact;
    forall k | 0 <= k < |history.definitions|
      ensures ValidDefinition(history.definitions[k].fact)
    {
      assert CommandFine(key, history.definitions[k].fact);
      DefinitionValid(key, history.definitions[k].fact);
    }
  }

  /** What validation asks of a command's definition. */
  predicate ValidDefinition(definition: CommandDefinition) {
    && ValidFact(definition.params, definition.structs)
    && (definition.completion.CommandStatus? <==> definition.results.None?)
    && (definition.results.Some? ==> ValidFact(definition.results.value, definition.structs))
    && ValidBearers(definition.params, definition.bearers)
  }

  lemma {:induction false} DefinitionValid(key: CommandKey, definition: CommandDefinition)
    ensures CommandFine(key, definition) <==>
              (key.scope.StandardCommand? || key.opcode / 0x400 == 0x3F) && ValidDefinition(definition)
  {
    LayoutValid(definition.params, definition.structs);
    if definition.results.Some? {
      LayoutValid(definition.results.value, definition.structs);
    }
    hide LayoutFine, ValidFact;
  }

  // ----- events

  lemma {:induction false} EventsOnce(platform: Platform, snapshots: seq<Snapshot>, check: DomainCheck)
    requires AllFine(platform, snapshots, check) && AllUnrepeated(snapshots)
    ensures NoneTwice(snapshots, EVENTS)
  {
    hide ReleaseFine, EventFine, CommandItemFine, StatusesFine, DocumentsFine, AllOf, AllIn, StrictlySorted;
    forall i | 0 <= i < |snapshots|
      ensures DistinctKeys(snapshots[i].events)
      ensures forall item | item in snapshots[i].events :: DistinctKeys(item.fact.domains)
    {
      assert SnapshotFine(platform, snapshots[i], check) && Unrepeated(snapshots[i]);
    }
  }

  lemma {:induction false} EventListed(platform: Platform, snapshots: seq<Snapshot>, check: DomainCheck, key: EventKey,
                                       i: nat, fact: Fact<EventDefinition>)
    requires AllFine(platform, snapshots, check) && i < |snapshots| && Recorded(EVENTS(snapshots[i]), key) == Some(fact)
    ensures EventItemFine(platform, snapshots[i].source, Keyed(key, fact), check)
  {
    RecordedItem(snapshots[i].events, key);
    hide ReleaseFine, CommandItemFine, EventItemFine, StatusesFine, StrictlySorted, Recorded;
    assert SnapshotFine(platform, snapshots[i], check);
  }

  lemma {:induction false} EventFollows(catalog: CatalogData, snapshots: seq<Snapshot>, check: DomainCheck, key: EventKey)
    requires IsCatalog(catalog, catalog.platform, snapshots) && AllFine(catalog.platform, snapshots, check)
    requires AllUnrepeated(snapshots) && key in catalog.events
    ensures Lists(catalog, snapshots) && KeyFine(catalog, snapshots, EVENTS, key)
    ensures Follows(catalog.events[key], Versions(catalog.releases), snapshots, EVENTS, key)
    ensures forall member | member in catalog.events[key].domains :: NoOverlaps(catalog.events[key].domains[member])
  {
    ReleasesValid(catalog, snapshots, check);
    EventsOnce(catalog.platform, snapshots, check);
    hide EntriesOf, MergedAs, HistoryAs, AllFine, AllUnrepeated, Lists, NoneTwice, Follows, NoOverlaps, FactFine, EventFine,
      DocumentsFine, Recorded;
    assert HistoryAs(catalog.events, EntriesOf(FactsOf(snapshots, EVENTS), key), key, Versions(catalog.releases));
    HistoryFollows(catalog, catalog.events, snapshots, EVENTS, key);
    forall i, fact | 0 <= i < |snapshots| && Recorded(snapshots[i].events, key) == Some(fact)
      ensures FactFine(catalog.platform, snapshots[i].source, fact)
    {
      EventListed(catalog.platform, snapshots, check, key, i, fact);
    }
  }

  lemma {:induction false} EventDefined(catalog: CatalogData, snapshots: seq<Snapshot>, check: DomainCheck, key: EventKey,
                                        k: nat)
    requires AllFine(catalog.platform, snapshots, check) && key in catalog.events
    requires Follows(catalog.events[key], Versions(catalog.releases), snapshots, EVENTS, key)
    requires k < |catalog.events[key].definitions|
    ensures EventFine(catalog.events[key].definitions[k].fact)
  {
    hide *;
    var i, fact := DefinitionSource(catalog.events[key], Versions(catalog.releases), snapshots, EVENTS, key, k);
    EventListed(catalog.platform, snapshots, check, key, i, fact);
    EventParts(catalog.platform, snapshots[i].source, Keyed(key, fact), check);
  }

  lemma {:induction false} EventParts(platform: Platform, source: ReleaseSource, item: Keyed<EventKey, Fact<EventDefinition>>,
                                      check: DomainCheck)
    requires EventItemFine(platform, source, item, check)
    ensures EventFine(item.fact.definition)
    ensures DocumentsFine(item.fact.domains, Some(item.fact.definition.payload), None, check)
  {
  }

  lemma {:induction false} EventDocumented(catalog: CatalogData, snapshots: seq<Snapshot>, check: DomainCheck, key: EventKey,
                                           member: Member, k: nat, version: Version)
    requires AllFine(catalog.platform, snapshots, check) && key in catalog.events && version in Versions(catalog.releases)
    requires Follows(catalog.events[key], Versions(catalog.releases), snapshots, EVENTS, key)
    requires member in catalog.events[key].domains && k < |catalog.events[key].domains[member]|
    requires catalog.events[key].domains[member][k].releases.Contains(version)
    ensures check(EventLayout(catalog.events[key], version, member.returned), member,
                  catalog.events[key].domains[member][k].fact)
  {
    hide *;
    var history := catalog.events[key];
    var i, fact := DocumentSource(history, Versions(catalog.releases), snapshots, EVENTS, key, member, k, version);
    EventListed(catalog.platform, snapshots, check, key, i, fact);
    EventParts(catalog.platform, snapshots[i].source, Keyed(key, fact), check);
    EventChecked(history, fact, member, history.domains[member][k].fact, version, check);
  }

  lemma {:induction false} EventChecked(history: History<EventDefinition>, fact: Fact<EventDefinition>, member: Member,
                                        documented: Domain, version: Version, check: DomainCheck)
    requires DocumentsFine(fact.domains, Some(fact.definition.payload), None, check)
    requires Keyed(member, documented) in fact.domains && FactIn(history.definitions, version) == Some(fact.definition)
    ensures check(EventLayout(history, version, member.returned), member, documented)
  {
    hide FactIn;
  }

  lemma {:induction false} EventValid(catalog: CatalogData, snapshots: seq<Snapshot>, check: DomainCheck, key: EventKey)
    requires IsCatalog(catalog, catalog.platform, snapshots) && AllFine(catalog.platform, snapshots, check)
    requires AllUnrepeated(snapshots) && key in catalog.events
    ensures ValidEvent(catalog, catalog.events[key], check)
  {
    var history := catalog.events[key];
    EventFollows(catalog, snapshots, check, key);
    hide *;
    HistoryValid(catalog, history, snapshots, EVENTS, key);
    forall k | 0 <= k < |history.definitions| ensures EventFine(history.definitions[k].fact) {
      EventDefined(catalog, snapshots, check, key, k);
    }
    forall member, k, version |
      && member in history.domains && 0 <= k < |history.domains[member]| && version in Versions(catalog.releases)
      && history.domains[member][k].releases.Contains(version)
      ensures check(EventLayout(history, version, member.returned), member, history.domains[member][k].fact)
    {
      EventDocumented(catalog, snapshots, check, key, member, k, version);
    }
    EventFromParts(catalog, history, check);
  }

  lemma {:induction false} EventFromParts(catalog: CatalogData, history: History<EventDefinition>, check: DomainCheck)
    requires ValidHistory(catalog, history)
    requires forall k | 0 <= k < |history.definitions| :: EventFine(history.definitions[k].fact)
    requires forall member | member in history.domains :: NoOverlaps(history.domains[member])
    requires forall member, k, version |
               && member in history.domains && 0 <= k < |history.domains[member]| && version in Versions(catalog.releases)
               && history.domains[member][k].releases.Contains(version) ::
                 check(EventLayout(history, version, member.returned), member, history.domains[member][k].fact)
    ensures ValidEvent(catalog, history, check)
  {
    hide ValidHistory, NoOverlaps, EventLayout, LayoutFine, ValidFact;
    forall k | 0 <= k < |history.definitions|
      ensures ValidFact(history.definitions[k].fact.payload, history.definitions[k].fact.structs)
      ensures ValidBearers(history.definitions[k].fact.payload, history.definitions[k].fact.bearers)
    {
      assert EventFine(history.definitions[k].fact);
      LayoutValid(history.definitions[k].fact.payload, history.definitions[k].fact.structs);
    }
  }

  // ----- statuses

  lemma {:induction false} StatusesOnce(platform: Platform, snapshots: seq<Snapshot>, check: DomainCheck, n: nat)
    requires AllFine(platform, snapshots, check) && n < |snapshots|
    ensures StatusesFine(snapshots[n].statuses) && DistinctKeys(snapshots[n].statuses)
  {
    hide ReleaseFine, EventItemFine, CommandItemFine, StrictlySorted;
    assert SnapshotFine(platform, snapshots[n], check);
  }

  lemma {:induction false} StatusRanges(catalog: CatalogData, snapshots: seq<Snapshot>, check: DomainCheck, key: StatusKey)
    requires IsCatalog(catalog, catalog.platform, snapshots) && AllFine(catalog.platform, snapshots, check)
    requires key in catalog.statuses
    ensures Maximal(catalog.statuses[key], Versions(catalog.releases))
    ensures Bounded(Versions(catalog.releases), catalog.statuses[key]) && NoOverlaps(catalog.statuses[key])
  {
    ReleasesValid(catalog, snapshots, check);
    hide EntriesOf, MergedAs, HistoryAs, AllFine, ValidReleases, DistinctKeys, Maximal, Ascending, NoOverlaps, Bounded,
      StatusesFine;
    var versions := Versions(catalog.releases);
    assert MergedAs(catalog.statuses, EntriesOf(FactsOf(snapshots, STATUSES), key), key, versions);
    forall n | 0 <= n < |snapshots| ensures DistinctKeys(snapshots[n].statuses) {
      StatusesOnce(catalog.platform, snapshots, check, n);
    }
    RangesValid(catalog.statuses, snapshots, STATUSES, versions, key);
  }

  /** A status holding in a release is listed by its snapshot. */
  lemma {:induction false} StatusListed(catalog: CatalogData, snapshots: seq<Snapshot>, check: DomainCheck, key: StatusKey,
                                        k: nat, n: nat)
    requires IsCatalog(catalog, catalog.platform, snapshots) && AllFine(catalog.platform, snapshots, check)
    requires key in catalog.statuses && k < |catalog.statuses[key]| && n < |Versions(catalog.releases)|
    requires catalog.statuses[key][k].releases.Contains(Versions(catalog.releases)[n])
    ensures n < |snapshots| && exists j :: 0 <= j < |snapshots[n].statuses| && snapshots[n].statuses[j].key == key
  {
    ReleasesValid(catalog, snapshots, check);
    StatusRanges(catalog, snapshots, check, key);
    hide EntriesOf, MergedAs, HistoryAs, AllFine, ValidReleases, Maximal, Ascending, NoOverlaps, Bounded, Recorded, FactIn;
    var versions := Versions(catalog.releases);
    assert MergedAs(catalog.statuses, EntriesOf(FactsOf(snapshots, STATUSES), key), key, versions);
    TableShown(catalog.statuses, snapshots, STATUSES, versions, key, n);
    FactInside(catalog.statuses[key], versions, k, versions[n]);
    RecordedItem(snapshots[n].statuses, key);
  }

  lemma {:induction false} StatusesApartAt(catalog: CatalogData, snapshots: seq<Snapshot>, check: DomainCheck,
                                           a: StatusKey, b: StatusKey, i: nat, j: nat, version: Version)
    requires IsCatalog(catalog, catalog.platform, snapshots) && AllFine(catalog.platform, snapshots, check)
    requires a in catalog.statuses && b in catalog.statuses && version in Versions(catalog.releases)
    requires i < |catalog.statuses[a]| && j < |catalog.statuses[b]| && (a != b || i != j)
    requires catalog.statuses[a][i].releases.Contains(version) && catalog.statuses[b][j].releases.Contains(version)
    ensures a.name != b.name && a.value != b.value
  {
    hide IsCatalog, AllFine, Maximal, Bounded, StatusesFine;
    if a == b {
      StatusRanges(catalog, snapshots, check, a);
      OnlyRange(catalog.statuses[a], i, j, version);
    } else {
      var n :| 0 <= n < |Versions(catalog.releases)| && Versions(catalog.releases)[n] == version;
      StatusListed(catalog, snapshots, check, a, i, n);
      StatusListed(catalog, snapshots, check, b, j, n);
      StatusesOnce(catalog.platform, snapshots, check, n);
      var p :| 0 <= p < |snapshots[n].statuses| && snapshots[n].statuses[p].key == a;
      var q :| 0 <= q < |snapshots[n].statuses| && snapshots[n].statuses[q].key == b;
      DifferentStatuses(snapshots[n].statuses, p, q);
    }
  }

  lemma {:induction false} DifferentStatuses(statuses: seq<Keyed<StatusKey, ()>>, p: nat, q: nat)
    requires StatusesFine(statuses) && p < |statuses| && q < |statuses| && p != q
    ensures statuses[p].key.name != statuses[q].key.name && statuses[p].key.value != statuses[q].key.value
  {
    if q < p {
      DifferentStatuses(statuses, q, p);
    }
  }

  lemma {:induction false} OnlyRange<T>(ranged: seq<Ranged<T>>, i: nat, j: nat, version: Version)
    requires NoOverlaps(ranged) && i < |ranged| && j < |ranged|
    requires ranged[i].releases.Contains(version) && ranged[j].releases.Contains(version)
    ensures i == j
  {
    AtMostTransitive(ranged[i].releases.first, version, ranged[j].releases.last);
    AtMostTransitive(ranged[j].releases.first, version, ranged[i].releases.last);
    hide AtMost;
    assert ranged[i].releases.Overlaps(ranged[j].releases) && ranged[j].releases.Overlaps(ranged[i].releases);
  }

  lemma {:induction false} StatusesValid(catalog: CatalogData, snapshots: seq<Snapshot>, check: DomainCheck)
    requires IsCatalog(catalog, catalog.platform, snapshots) && AllFine(catalog.platform, snapshots, check)
    ensures ValidStatuses(catalog)
  {
    hide IsCatalog, AllFine, Maximal, Bounded, NoOverlaps;
    forall key | key in catalog.statuses ensures Bounded(Versions(catalog.releases), catalog.statuses[key]) {
      StatusRanges(catalog, snapshots, check, key);
    }
    forall version, a, b, i, j |
      && version in Versions(catalog.releases)
      && a in catalog.statuses && b in catalog.statuses
      && 0 <= i < |catalog.statuses[a]| && 0 <= j < |catalog.statuses[b]| && (a != b || i != j)
      && catalog.statuses[a][i].releases.Contains(version) && catalog.statuses[b][j].releases.Contains(version)
      ensures a.name != b.name && a.value != b.value
    {
      StatusesApartAt(catalog, snapshots, check, a, b, i, j, version);
    }
  }

  lemma {:induction false} SoundIsValid(catalog: CatalogData, snapshots: seq<Snapshot>, check: DomainCheck)
    requires IsCatalog(catalog, catalog.platform, snapshots) && AllFine(catalog.platform, snapshots, check)
    requires AllUnrepeated(snapshots)
    ensures Valid(catalog, check)
  {
    hide IsCatalog, AllFine, AllUnrepeated, ValidReleases, ValidBinary, ValidCommand, ValidEvent, ValidStatuses, Bounded,
      NoOverlaps;
    ReleasesValid(catalog, snapshots, check);
    forall key | key in catalog.binaries ensures ValidBinary(catalog, key, catalog.binaries[key]) {
      BinaryValid(catalog, snapshots, check, key);
    }
    forall key | key in catalog.commands ensures ValidCommand(catalog, key, catalog.commands[key], check) {
      CommandValid(catalog, snapshots, check, key);
    }
    forall key | key in catalog.events ensures ValidEvent(catalog, catalog.events[key], check) {
      EventValid(catalog, snapshots, check, key);
    }
    forall key | key in catalog.structDomains
      ensures Bounded(Versions(catalog.releases), catalog.structDomains[key]) && NoOverlaps(catalog.structDomains[key])
    {
      StructDomainValid(catalog, snapshots, check, key);
    }
    StatusesValid(catalog, snapshots, check);
  }
}

/** A merged catalog validates exactly if every snapshot is sound by itself and the snapshots
    are of different releases (crates/stm32wb-catalog/src/merge.rs and lib.rs). */
module MergeExactly {
  import opened Options
  import opened Release
  import opened Runs
  import opened Domains
  import opened Catalog
  import opened Merge
  import opened MergeFaithful
  import opened MergeCanonical
  import opened MergeAccepts

  // ----- releases and binaries

  lemma {:induction false} ValidSorted(catalog: CatalogData, snapshots: seq<Snapshot>)
    requires catalog.releases == Sources(snapshots) && ValidReleases(catalog)
    ensures snapshots != [] && StrictlySorted(snapshots) && Lists(catalog, snapshots)
  {
    hide Before, SortedUnique;
    var versions := Versions(catalog.releases);
    forall i, j | 0 <= i < j < |snapshots| ensures Before(snapshots[i].source.version, snapshots[j].source.version) {
      assert Before(versions[i], versions[j]);
    }
  }

  lemma {:induction false} ReleaseSound(catalog: CatalogData, snapshots: seq<Snapshot>, i: nat)
    requires catalog.releases == Sources(snapshots) && ValidReleases(catalog) && i < |snapshots|
    ensures ReleaseFine(catalog.platform, snapshots[i].source)
  {
    hide Ascending;
    assert catalog.releases[i] == snapshots[i].source;
  }

  lemma {:induction false} BinarySound(catalog: CatalogData, snapshots: seq<Snapshot>, check: DomainCheck, i: nat,
                                       item: Keyed<BinaryKey, ()>)
    requires IsCatalog(catalog, catalog.platform, snapshots) && Valid(catalog, check)
    requires i < |snapshots| && item in snapshots[i].binaries
    ensures catalog.platform == Stm32wb == PlatformOf(item.key.profile)
  {
    hide EntriesOf, RangesOf, HistoryAs, ValidCommand, ValidEvent, ValidStatuses, NoOverlaps, Bounded, ValidReleases;
    assert MergedAs(catalog.binaries, EntriesOf(FactsOf(snapshots, BINARIES), item.key), item.key,
                    Versions(Sources(snapshots)));
    var e := ItemEntry(FactsOf(snapshots, BINARIES), i, item);
    assert ValidBinary(catalog, item.key, catalog.binaries[item.key]);
  }

  /** A listed item is among its key's entries. */
  lemma {:induction false} ItemEntry<K, V>(facts: seq<Entry<seq<Keyed<K, V>>>>, n: nat, item: Keyed<K, V>) returns (e: nat)
    requires n < |facts| && item in facts[n].fact
    ensures e < |EntriesOf(facts, item.key)| && EntriesOf(facts, item.key)[e].fact == item.fact
  {
    var at := EntriesHold(facts, item.key, n);
    var ofKey := OfKey(facts[n].index, facts[n].fact, item.key);
    var k := ItemOfKey(facts[n].index, facts[n].fact, item);
    assert ofKey[k] == EntriesOf(facts, item.key)[at..at + |ofKey|][k];
    e := at + k;
  }

  lemma {:induction false} ItemOfKey<K, V>(index: nat, items: seq<Keyed<K, V>>, item: Keyed<K, V>) returns (k: nat)
    requires item in items
    ensures k < |OfKey(index, items, item.key)| && OfKey(index, items, item.key)[k].fact == item.fact
  {
    var last := |items| - 1;
    if items[last] == item {
      k := |OfKey(index, items[..last], item.key)|;
    } else {
      assert items == items[..last] + [items[last]];
      k := ItemOfKey(index, items[..last], item);
    }
  }

  // ----- facts a valid history shows

  lemma {:induction false} ShownSound<D(!new)>(catalog: CatalogData, history: History<D>, version: Version, fact: Fact<D>)
    requires ValidHistory(catalog, history) && version in Versions(catalog.releases)
    requires Shows(Some(history), version, Some(fact))
    ensures fact.name != "" && fact.profiles != []
    ensures AllOf(fact.profiles, catalog.platform) && AllIn(fact.profiles, ProfilesIn(catalog, version))
  {
    hide NoOverlaps, Bounded, Present, FactIn, Normalized, SortedUnique, ProfilesIn, PlatformOf, At;
    var n := FactHeld(history.names, version);
    var k := FactHeld(history.availability, version);
    assert ValidAvailability(catalog, history.availability[k]);
    NormalizedIs(fact.profiles);
  }

  /** Ranges that do not overlap document no member twice in a release. */
  lemma {:induction false} DocumentedOnce<D(!new)>(history: History<D>, entries: seq<Entry<Fact<D>>>, versions: seq<Version>,
                                                   e: nat)
    requires IsHistory(history, entries, versions) && Ascending(versions) && Strict(entries) && e < |entries|
    requires forall member | member in history.domains :: NoOverlaps(history.domains[member])
    ensures DistinctKeys(entries[e].fact.domains)
  {
    var documents := Project(entries, Documenting());
    assert documents[e].fact == entries[e].fact.domains && Strict(documents);
    hide DistinctKeys, NoOverlaps, Strict, Ascending, EntriesOf;
    forall member ensures Strict(EntriesOf(documents, member)) {
      DocumentsStrict(history, documents, versions, member);
    }
    StrictDistinct(documents, e);
  }

  lemma {:induction false} DocumentsStrict<D(!new)>(history: History<D>, documents: seq<Entry<seq<Keyed<Member, Domain>>>>,
                                                    versions: seq<Version>, member: Member)
    requires MergedAs(history.domains, EntriesOf(documents, member), member, versions)
    requires Ascending(versions) && Strict(documents)
    requires member in history.domains ==> NoOverlaps(history.domains[member])
    ensures Strict(EntriesOf(documents, member))
  {
    var domains := EntriesOf(documents, member);
    EntriesWeak(documents, member);
    if domains != [] {
      RunsStayBelow(domains, |versions|);
      RangesApart(RunsOf(domains), versions);
      ApartStrict(domains);
    }
  }

  /** A sound fact, from the history that shows it. */
  lemma {:induction false} FactSound<K, D(!new)>(catalog: CatalogData, table: map<K, History<D>>, snapshots: seq<Snapshot>,
                                                 facts: Listing<K, D>, i: nat, item: Keyed<K, Fact<D>>)
    requires Lists(catalog, snapshots) && i < |snapshots| && item in facts(snapshots[i])
    requires forall n | 0 <= n < |snapshots| :: DistinctKeys(facts(snapshots[n]))
    requires HistoryAs(table, EntriesOf(FactsOf(snapshots, facts), item.key), item.key, Versions(catalog.releases))
    requires item.key in table ==> ValidHistory(catalog, table[item.key])
    requires item.key in table ==> forall member | member in table[item.key].domains :: NoOverlaps(table[item.key].domains[member])
    ensures item.key in table && Shows(Some(table[item.key]), snapshots[i].source.version, Some(item.fact))
    ensures FactFine(catalog.platform, snapshots[i].source, item.fact)
  {
    var versions, entries := Versions(catalog.releases), EntriesOf(FactsOf(snapshots, facts), item.key);
    var e := ItemEntry(FactsOf(snapshots, facts), i, item);
    FactsOrdered(snapshots, facts);
    EntriesStrict(FactsOf(snapshots, facts), item.key);
    HistoriesShown(table, snapshots, facts, versions, item.key, i);
    RecordedOnly(facts(snapshots[i]), item);
    ListedIn(catalog, snapshots, i);
    hide EntriesOf, FactsOf, DistinctKeys, Recorded, ValidHistory, NoOverlaps, ValidReleases, Shows, IsHistory, Strict,
      AllOf, AllIn, ProfilesIn, Listed;
    ShownSound(catalog, table[item.key], versions[i], item.fact);
    DocumentedOnce(table[item.key], entries, versions, e);
    Once(item.fact);
  }

  lemma {:induction false} Once<D>(fact: Fact<D>)
    requires DistinctKeys(fact.domains)
    ensures forall i, j | 0 <= i < j < |fact.domains| :: fact.domains[i].key != fact.domains[j].key
  {
  }

  // ----- commands and events

  lemma {:induction false} DocumentHeld<D(!new)>(history: History<D>, version: Version, fact: Fact<D>,
                                                 d: Keyed<Member, Domain>)
    returns (k: nat)
    requires Shows(Some(history), version, Some(fact)) && DistinctKeys(fact.domains) && d in fact.domains
    ensures d.key in history.domains && k < |history.domains[d.key]|
    ensures history.domains[d.key][k] == Ranged(history.domains[d.key][k].releases, d.fact)
    ensures history.domains[d.key][k].releases.Contains(version)
  {
    RecordedOnly(fact.domains, d);
    hide FactIn, Recorded, DistinctKeys, Normalized;
    assert At(history.domains, d.key, version) == Some(d.fact);
    k := FactHeld(history.domains[d.key], version);
  }

  lemma {:induction false} CommandSound(catalog: CatalogData, key: CommandKey, history: History<CommandDefinition>,
                                        version: Version, fact: Fact<CommandDefinition>, check: DomainCheck)
    requires ValidCommand(catalog, key, history, check) && Shows(Some(history), version, Some(fact))
    requires version in Versions(catalog.releases) && DistinctKeys(fact.domains)
    ensures CommandFine(key, fact.definition)
    ensures DocumentsFine(fact.domains, Some(fact.definition.params), fact.definition.results, check)
  {
    hide ValidHistory, NoOverlaps, FactIn, Normalized, At, Recorded, DistinctKeys, ValidFact, ValidBearers, CommandFine;
    var k := FactHeld(history.definitions, version);
    DefinitionValid(key, history.definitions[k].fact);
    forall d | d in fact.domains
      ensures check(if d.key.returned then fact.definition.results else Some(fact.definition.params), d.key, d.fact)
    {
      var n := DocumentHeld(history, version, fact, d);
      assert check(CommandLayout(history, version, d.key.returned), d.key, history.domains[d.key][n].fact);
    }
  }

  lemma {:induction false} EventSound(catalog: CatalogData, history: History<EventDefinition>, version: Version,
                                      fact: Fact<EventDefinition>, check: DomainCheck)
    requires ValidEvent(catalog, history, check) && Shows(Some(history), version, Some(fact))
    requires version in Versions(catalog.releases) && DistinctKeys(fact.domains)
    ensures EventFine(fact.definition)
    ensures DocumentsFine(fact.domains, Some(fact.definition.payload), None, check)
  {
    hide ValidHistory, NoOverlaps, FactIn, Normalized, At, Recorded, DistinctKeys, ValidFact, ValidBearers, LayoutFine;
    var k := FactHeld(history.definitions, version);
    LayoutValid(fact.definition.payload, fact.definition.structs);
    assert ValidBearers(fact.definition.payload, fact.definition.bearers) by {
      assert history.definitions[k].fact == fact.definition;
    }
    BearersSound(fact.definition.payload, fact.definition.bearers);
    forall d | d in fact.domains
      ensures check(if d.key.returned then None else Some(fact.definition.payload), d.key, d.fact)
    {
      var n := DocumentHeld(history, version, fact, d);
      assert check(EventLayout(history, version, d.key.returned), d.key, history.domains[d.key][n].fact);
    }
  }

  lemma {:induction false} BearersSound(layout: LayoutFact, bearers: seq<Bearer>)
    requires ValidBearers(layout, bearers)
    ensures BearersFine(layout, bearers)
  {
  }

  lemma {:induction false} CommandItemSound(catalog: CatalogData, snapshots: seq<Snapshot>, check: DomainCheck, i: nat,
                                            item: Keyed<CommandKey, Fact<CommandDefinition>>)
    requires IsCatalog(catalog, catalog.platform, snapshots) && Valid(catalog, check) && AllUnrepeated(snapshots)
    requires i < |snapshots| && item in snapshots[i].commands
    ensures CommandItemFine(catalog.platform, snapshots[i].source, item, check)
  {
    var key := item.key;
    ValidSorted(catalog, snapshots);
    hide EntriesOf, IsHistory, MergedAs, ValidReleases, ValidHistory, ValidFact, ValidBearers, NoOverlaps, ValidEvent,
      ValidStatuses, Shows, CommandFine, FactFine, DocumentsFine, DistinctKeys;
    assert HistoryAs(catalog.commands, EntriesOf(FactsOf(snapshots, COMMANDS), key), key, Versions(catalog.releases));
    FactSound(catalog, catalog.commands, snapshots, COMMANDS, i, item);
    FactOnce(catalog.platform, snapshots[i].source, item.fact);
    hide IsCatalog, AllUnrepeated;
    CommandSound(catalog, key, catalog.commands[key], snapshots[i].source.version, item.fact, check);
  }

  lemma {:induction false} FactOnce<D>(platform: Platform, source: ReleaseSource, fact: Fact<D>)
    requires FactFine(platform, source, fact)
    ensures DistinctKeys(fact.domains)
  {
  }

  lemma {:induction false} EventItemSound(catalog: CatalogData, snapshots: seq<Snapshot>, check: DomainCheck, i: nat,
                                          item: Keyed<EventKey, Fact<EventDefinition>>)
    requires IsCatalog(catalog, catalog.platform, snapshots) && Valid(catalog, check) && AllUnrepeated(snapshots)
    requires i < |snapshots| && item in snapshots[i].events
    ensures EventItemFine(catalog.platform, snapshots[i].source, item, check)
  {
    var key := item.key;
    ValidSorted(catalog, snapshots);
    hide EntriesOf, IsHistory, MergedAs, ValidReleases, ValidHistory, ValidFact, ValidBearers, NoOverlaps, ValidCommand,
      ValidStatuses, Shows, EventFine, FactFine, DocumentsFine, DistinctKeys;
    assert HistoryAs(catalog.events, EntriesOf(FactsOf(snapshots, EVENTS), key), key, Versions(catalog.releases));
    FactSound(catalog, catalog.events, snapshots, EVENTS, i, item);
    FactOnce(catalog.platform, snapshots[i].source, item.fact);
    hide IsCatalog, AllUnrepeated;
    EventSound(catalog, catalog.events[key], snapshots[i].source.version, item.fact, check);
  }

  // ----- statuses

  /** Validated statuses are listed once in a snapshot. */
  lemma {:induction false} StatusKeysOnce(catalog: CatalogData, snapshots: seq<Snapshot>, check: DomainCheck, i: nat)
    requires IsCatalog(catalog, catalog.platform, snapshots) && Valid(catalog, check) && i < |snapshots|
    ensures DistinctKeys(snapshots[i].statuses)
  {
    var versions, facts := Versions(catalog.releases), FactsOf(snapshots, STATUSES);
    assert Ascending(versions) && ValidStatuses(catalog);
    hide EntriesOf, Valid, ValidStatuses, HistoryAs, DistinctKeys, Ascending, Strict, RunsOf, Apart;
    FactsOrdered(snapshots, STATUSES);
    forall key ensures Strict(EntriesOf(facts, key)) {
      assert MergedAs(catalog.statuses, EntriesOf(facts, key), key, versions);
      StatusEntries(catalog, snapshots, versions, key);
    }
    StrictDistinct(facts, i);
  }

  lemma {:induction false} StatusEntries(catalog: CatalogData, snapshots: seq<Snapshot>, versions: seq<Version>, key: StatusKey)
    requires versions == Versions(catalog.releases) && Ascending(versions) && |versions| == |snapshots|
    requires MergedAs(catalog.statuses, EntriesOf(FactsOf(snapshots, STATUSES), key), key, versions)
    requires ValidStatuses(catalog)
    ensures Strict(EntriesOf(FactsOf(snapshots, STATUSES), key))
  {
    FactsOrdered(snapshots, STATUSES);
    EntriesWeak(FactsOf(snapshots, STATUSES), key);
    hide ValidStatuses, Ascending, EntriesOf, Apart, RunsOf;
    if key in catalog.statuses {
      StatusesApart(catalog, snapshots, versions, key);
      ApartStrict(EntriesOf(FactsOf(snapshots, STATUSES), key));
    }
  }

  lemma {:induction false} StatusPair(catalog: CatalogData, snapshots: seq<Snapshot>, check: DomainCheck, n: nat, i: nat, j: nat)
    requires IsCatalog(catalog, catalog.platform, snapshots) && Valid(catalog, check)
    requires n < |snapshots| && i < j < |snapshots[n].statuses|
    ensures snapshots[n].statuses[i].key.name != snapshots[n].statuses[j].key.name
    ensures snapshots[n].statuses[i].key.value != snapshots[n].statuses[j].key.value
  {
    var statuses := snapshots[n].statuses;
    assert Versions(catalog.releases)[n] == snapshots[n].source.version && ValidStatuses(catalog);
    hide IsCatalog, Valid, Recorded, ValidStatuses, At;
    StatusKeysOnce(catalog, snapshots, check, n);
    StatusesShown(catalog, snapshots, check, n, statuses[i].key);
    StatusesShown(catalog, snapshots, check, n, statuses[j].key);
    RecordedOnly(statuses, statuses[i]);
    RecordedOnly(statuses, statuses[j]);
    StatusesDiffer(catalog, statuses[i].key, statuses[j].key, snapshots[n].source.version);
  }

  lemma {:induction false} StatusesDiffer(catalog: CatalogData, a: StatusKey, b: StatusKey, version: Version)
    requires ValidStatuses(catalog) && a != b && version in Versions(catalog.releases)
    requires At(catalog.statuses, a, version).Some? && At(catalog.statuses, b, version).Some?
    ensures a.name != b.name && a.value != b.value
  {
    hide FactIn, Bounded;
    var p := FactHeld(catalog.statuses[a], version);
    var q := FactHeld(catalog.statuses[b], version);
  }

  // ----- the catalog

  lemma {:induction false} ValidIsSound(catalog: CatalogData, snapshots: seq<Snapshot>, check: DomainCheck)
    requires IsCatalog(catalog, catalog.platform, snapshots) && AllUnrepeated(snapshots) && Valid(catalog, check)
    ensures AllFine(catalog.platform, snapshots, check)
  {
    assert catalog.releases == Sources(snapshots) && ValidReleases(catalog);
    ValidSorted(catalog, snapshots);
    hide *;
    forall i | 0 <= i < |snapshots| ensures SnapshotFine(catalog.platform, snapshots[i], check) {
      SnapshotSound(catalog, snapshots, check, i);
    }
    AllSound(catalog.platform, snapshots, check);
  }

  lemma {:induction false} AllSound(platform: Platform, snapshots: seq<Snapshot>, check: DomainCheck)
    requires snapshots != [] && StrictlySorted(snapshots)
    requires forall i | 0 <= i < |snapshots| :: SnapshotFine(platform, snapshots[i], check)
    ensures AllFine(platform, snapshots, check)
  {
    hide StrictlySorted, SnapshotFine;
  }

  lemma {:induction false} SnapshotSound(catalog: CatalogData, snapshots: seq<Snapshot>, check: DomainCheck, i: nat)
    requires IsCatalog(catalog, catalog.platform, snapshots) && AllUnrepeated(snapshots) && Valid(catalog, check)
    requires i < |snapshots|
    ensures SnapshotFine(catalog.platform, snapshots[i], check)
  {
    assert catalog.releases == Sources(snapshots) && ValidReleases(catalog);
    hide IsCatalog, AllUnrepeated, Valid, ValidReleases, ReleaseFine, CommandItemFine, EventItemFine;
    ReleaseSound(catalog, snapshots, i);
    forall item | item in snapshots[i].binaries ensures catalog.platform == Stm32wb == PlatformOf(item.key.profile) {
      BinarySound(catalog, snapshots, check, i, item);
    }
    forall item | item in snapshots[i].commands
      ensures CommandItemFine(catalog.platform, snapshots[i].source, item, check)
    {
      CommandItemSound(catalog, snapshots, check, i, item);
    }
    forall item | item in snapshots[i].events ensures EventItemFine(catalog.platform, snapshots[i].source, item, check) {
      EventItemSound(catalog, snapshots, check, i, item);
    }
    forall p, q | 0 <= p < q < |snapshots[i].statuses|
      ensures snapshots[i].statuses[p].key.name != snapshots[i].statuses[q].key.name
      ensures snapshots[i].statuses[p].key.value != snapshots[i].statuses[q].key.value
    {
      StatusPair(catalog, snapshots, check, i, p, q);
    }
  }

  /** What snapshots in release order merge to validates exactly if there are some, their
      releases differ, and each is sound by itself. */
  lemma {:induction false} ValidExactlyIfSound(catalog: CatalogData, snapshots: seq<Snapshot>, check: DomainCheck)
    requires IsCatalog(catalog, catalog.platform, snapshots) && AllUnrepeated(snapshots)
    ensures Valid(catalog, check) <==>
              && snapshots != [] && StrictlySorted(snapshots)
              && forall i | 0 <= i < |snapshots| :: SnapshotFine(catalog.platform, snapshots[i], check)
  {
    if Valid(catalog, check) {
      ValidIsSound(catalog, snapshots, check);
    }
    hide IsCatalog, AllUnrepeated, Valid, StrictlySorted, SnapshotFine;
    if AllFine(catalog.platform, snapshots, check) {
      SoundIsValid(catalog, snapshots, check);
    }
  }

  // ----- snapshots in any order

  predicate DifferentReleases(snapshots: seq<Snapshot>) {
    forall i, j | 0 <= i < j < |snapshots| :: snapshots[i].source.version != snapshots[j].source.version
  }

  predicate NoneOf(snapshots: seq<Snapshot>, version: Version) {
    forall snapshot | snapshot in snapshots :: snapshot.source.version != version
  }

  lemma {:induction false} AppendDifferent(snapshots: seq<Snapshot>, snapshot: Snapshot)
    ensures DifferentReleases(snapshots + [snapshot]) <==>
              DifferentReleases(snapshots) && NoneOf(snapshots, snapshot.source.version)
  {
    var more := snapshots + [snapshot];
    if DifferentReleases(more) {
      assert forall i | 0 <= i < |snapshots| :: snapshots[i] == more[i] && more[|snapshots|] == snapshot;
    }
  }

  lemma {:induction false} InsertDifferent(sorted: seq<Snapshot>, snapshot: Snapshot)
    ensures DifferentReleases(Insert(sorted, snapshot)) <==>
              DifferentReleases(sorted) && NoneOf(sorted, snapshot.source.version)
  {
    if sorted != [] && Before(snapshot.source.version, sorted[|sorted| - 1].source.version) {
      var rest, last := sorted[..|sorted| - 1], sorted[|sorted| - 1];
      assert sorted == rest + [last];
      InsertDifferent(rest, snapshot);
      AppendDifferent(rest, last);
      AppendDifferent(Insert(rest, snapshot), last);
      InsertedNoneOf(rest, snapshot, last.source.version);
    } else {
      AppendDifferent(sorted, snapshot);
    }
  }

  lemma {:induction false} InsertedNoneOf(sorted: seq<Snapshot>, snapshot: Snapshot, version: Version)
    ensures NoneOf(Insert(sorted, snapshot), version) <==> NoneOf(sorted, version) && snapshot.source.version != version
  {
    InsertKeeps(sorted, snapshot);
    SameMembers(Insert(sorted, snapshot), sorted + [snapshot]);
    hide Insert;
  }

  lemma {:induction false} SameMembers<T>(a: seq<T>, b: seq<T>)
    requires multiset(a) == multiset(b)
    ensures forall x :: x in a <==> x in b
  {
    forall x ensures x in a <==> x in b {
      assert x in multiset(a) <==> x in multiset(b);
    }
  }

  lemma {:induction false} SortDifferent(snapshots: seq<Snapshot>)
    ensures DifferentReleases(SortByVersion(snapshots)) <==> DifferentReleases(snapshots)
  {
    if snapshots != [] {
      var rest, last := snapshots[..|snapshots| - 1], snapshots[|snapshots| - 1];
      assert snapshots == rest + [last];
      SortDifferent(rest);
      AppendDifferent(rest, last);
      InsertDifferent(SortByVersion(rest), last);
      SortKeeps(rest);
      SameMembers(SortByVersion(rest), rest);
    }
  }

  lemma {:induction false} StrictIfDifferent(sorted: seq<Snapshot>)
    requires Sorted(sorted)
    ensures StrictlySorted(sorted) <==> DifferentReleases(sorted)
  {
  }

  /** Snapshots that merge: some of different releases, each sound by itself and listing
      nothing twice. */
  ghost predicate Mergeable(platform: Platform, snapshots: seq<Snapshot>, check: DomainCheck) {
    && snapshots != [] && DifferentReleases(snapshots)
    && forall snapshot | snapshot in snapshots :: Unrepeated(snapshot) && SnapshotFine(platform, snapshot, check)
  }

  /** What snapshots in any order merge to validates exactly if they are mergeable. */
  lemma {:induction false} MergesExactly(platform: Platform, snapshots: seq<Snapshot>, check: DomainCheck, catalog: CatalogData)
    requires AllUnrepeated(SortByVersion(snapshots)) && IsCatalog(catalog, platform, SortByVersion(snapshots))
    ensures Valid(catalog, check) <==> Mergeable(platform, snapshots, check)
  {
    var sorted := SortByVersion(snapshots);
    SortKeeps(snapshots);
    SortSorts(snapshots);
    SortDifferent(snapshots);
    SameMembers(sorted, snapshots);
    hide SortByVersion, Valid, Unrepeated, SnapshotFine, Sorted, StrictlySorted, DifferentReleases, MergedAs, HistoryAs;
    StrictIfDifferent(sorted);
    assert forall snapshot | snapshot in snapshots :: Unrepeated(snapshot);
    assert catalog.platform == platform;
    hide IsCatalog, AllUnrepeated;
    ValidExactlyIfSound(catalog, sorted, check);
  }

  // ----- merging

  /** Merge, and refuse what does not validate. */
  method MergeSnapshots(platform: Platform, snapshots: seq<Snapshot>, check: DomainCheck)
    returns (catalog: Option<CatalogData>)
    ensures catalog.Some? <==> Mergeable(platform, snapshots, check)
    ensures catalog.Some? ==>
              var merged, sorted := catalog.value, SortByVersion(snapshots);
              && AllUnrepeated(sorted) && IsCatalog(merged, platform, sorted) && Valid(merged, check)
              && forall i, j | 0 <= i < j < |merged.releases| ::
                   Number(merged.releases[i].version) < Number(merged.releases[j].version)
  {
    hide AllUnrepeated, IsCatalog, Valid, SortByVersion, Mergeable;
    catalog := MergeSorted(platform, SortByVersion(snapshots));
    if catalog.None? {
      NotMergeable(platform, snapshots, check);
      return;
    }
    MergesExactly(platform, snapshots, check, catalog.value);
    if !Valid(catalog.value, check) {
      return None;
    }
    ReleasesByNumber(catalog.value, check);
  }

  lemma {:induction false} NotMergeable(platform: Platform, snapshots: seq<Snapshot>, check: DomainCheck)
    requires !AllUnrepeated(SortByVersion(snapshots))
    ensures !Mergeable(platform, snapshots, check)
  {
    SortKeeps(snapshots);
    SameMembers(SortByVersion(snapshots), snapshots);
    hide SortByVersion, Unrepeated, SnapshotFine, DifferentReleases;
  }

  lemma {:induction false} ReleasesByNumber(catalog: CatalogData, check: DomainCheck)
    requires Valid(catalog, check)
    ensures forall i, j | 0 <= i < j < |catalog.releases| ::
              Number(catalog.releases[i].version) < Number(catalog.releases[j].version)
  {
    var versions := Versions(catalog.releases);
    assert Ascending(versions);
    hide Valid, Before, Number;
    forall i, j | 0 <= i < j < |catalog.releases|
      ensures Number(catalog.releases[i].version) < Number(catalog.releases[j].version)
    {
      assert Before(versions[i], versions[j]);
      OrderedByNumber(versions[i], versions[j]);
    }
  }
}

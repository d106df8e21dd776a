/** The merged catalog is canonical: its ranges are the only maximal ones giving every
    release its fact, and they do not depend on the order of the snapshots. */
module MergeCanonical {
  import opened Options
  import opened Release
  import opened Runs
  import opened Catalog
  import opened Merge
  import opened MergeFaithful

  // ----- maximal ranges

  /** `b` is the release right after `a`. */
  ghost predicate Next(versions: seq<Version>, a: Version, b: Version) {
    exists i | 0 <= i < |versions| - 1 :: versions[i] == a && versions[i + 1] == b
  }

  /** Disjoint ascending ranges between known releases, none of which the range after it
      continues with an equal fact. */
  ghost predicate Maximal<T>(ranged: seq<Ranged<T>>, versions: seq<Version>) {
    && Bounded(versions, ranged)
    && (forall k | 0 <= k < |ranged| :: AtMost(ranged[k].releases.first, ranged[k].releases.last))
    && (forall j, k | 0 <= j < k < |ranged| :: Before(ranged[j].releases.last, ranged[k].releases.first))
    && (forall k | 0 < k < |ranged| :: !Extends(ranged, versions, k))
  }

  ghost predicate Extends<T>(ranged: seq<Ranged<T>>, versions: seq<Version>, k: nat)
    requires 0 < k < |ranged|
  {
    && Next(versions, ranged[k - 1].releases.last, ranged[k].releases.first)
    && ranged[k - 1].fact == ranged[k].fact
  }

  lemma {:induction false} RangesMaximal<T>(entries: seq<Entry<T>>, versions: seq<Version>)
    requires Ascending(versions) && Strict(entries) && Below(entries, |versions|)
    ensures Maximal(RangesOf(entries, versions), versions)
  {
    RunsCanonical(entries);
    RunsStayBelow(entries, |versions|);
    hide RunsOf, Strict, Canonical, Maximal;
    CanonicalIsMaximal(RunsOf(entries), versions);
  }

  lemma {:induction false} CanonicalIsMaximal<T>(runs: seq<Run<T>>, versions: seq<Version>)
    requires Ascending(versions) && Canonical(runs) && RunsBelow(runs, |versions|)
    ensures Maximal(RangedOf(runs, versions), versions)
  {
    var ranged := RangedOf(runs, versions);
    hide Extends, Continues;
    forall k | 0 < k < |runs| ensures !Extends(ranged, versions, k) {
      RunsDoNotExtend(runs, versions, k);
    }
    RangesAscend(runs, versions);
  }

  lemma {:induction false} RangesAscend<T>(runs: seq<Run<T>>, versions: seq<Version>)
    requires Ascending(versions) && Canonical(runs) && RunsBelow(runs, |versions|)
    ensures var ranged := RangedOf(runs, versions);
            && (forall k | 0 <= k < |ranged| :: AtMost(ranged[k].releases.first, ranged[k].releases.last))
            && (forall j, k | 0 <= j < k < |ranged| :: Before(ranged[j].releases.last, ranged[k].releases.first))
  {
    var ranged := RangedOf(runs, versions);
    forall k | 0 <= k < |runs| ensures AtMost(ranged[k].releases.first, ranged[k].releases.last) {
      OrderByIndex(versions, runs[k].first, runs[k].last);
    }
    forall j, k | 0 <= j < k < |runs| ensures Before(ranged[j].releases.last, ranged[k].releases.first) {
      assert runs[j].last < runs[k].first;
    }
  }

  lemma {:induction false} RunsDoNotExtend<T>(runs: seq<Run<T>>, versions: seq<Version>, k: nat)
    requires Ascending(versions) && RunsBelow(runs, |versions|) && 0 < k < |runs| && !Continues(runs, k)
    ensures !Extends(RangedOf(runs, versions), versions, k)
  {
    var ranged := RangedOf(runs, versions);
    if Next(versions, ranged[k - 1].releases.last, ranged[k].releases.first) {
      var i :| 0 <= i < |versions| - 1 && versions[i] == ranged[k - 1].releases.last && versions[i + 1] == ranged[k].releases.first;
      OrderByIndex(versions, i, runs[k - 1].last);
      OrderByIndex(versions, i + 1, runs[k].first);
    }
  }

  // ----- uniqueness

  function PositionOf(versions: seq<Version>, version: Version): (i: nat)
    requires version in versions
    ensures i < |versions| && versions[i] == version
  {
    if versions[0] == version then 0 else PositionOf(versions[1..], version) + 1
  }

  /** Ranges of releases as runs of their indexes. */
  function RunsIn<T>(ranged: seq<Ranged<T>>, versions: seq<Version>): (runs: seq<Run<T>>)
    requires Bounded(versions, ranged)
    ensures |runs| == |ranged| && RunsBelow(runs, |versions|)
    ensures forall k | 0 <= k < |ranged| ::
              versions[runs[k].first] == ranged[k].releases.first && versions[runs[k].last] == ranged[k].releases.last
              && runs[k].fact == ranged[k].fact
  {
    seq(|ranged|, k requires 0 <= k < |ranged| && Bounded(versions, ranged) =>
          Run(PositionOf(versions, ranged[k].releases.first), PositionOf(versions, ranged[k].releases.last), ranged[k].fact))
  }

  lemma {:induction false} MaximalIsCanonical<T>(ranged: seq<Ranged<T>>, versions: seq<Version>)
    requires Ascending(versions) && Maximal(ranged, versions)
    ensures Canonical(RunsIn(ranged, versions)) && RangedOf(RunsIn(ranged, versions), versions) == ranged
  {
    var runs := RunsIn(ranged, versions);
    forall k | 0 <= k < |runs| ensures runs[k].first <= runs[k].last {
      OrderByIndex(versions, runs[k].first, runs[k].last);
    }
    forall j, k | 0 <= j < k < |runs| ensures runs[j].last < runs[k].first {
      OrderByIndex(versions, runs[k].first, runs[j].last);
      assert Before(ranged[j].releases.last, ranged[k].releases.first);
    }
    forall k | 0 < k < |runs| ensures !Continues(runs, k) {
      if Continues(runs, k) {
        ContinuingExtends(ranged, versions, k);
      }
    }
  }

  lemma {:induction false} ContinuingExtends<T>(ranged: seq<Ranged<T>>, versions: seq<Version>, k: nat)
    requires Bounded(versions, ranged) && 0 < k < |ranged| && Continues(RunsIn(ranged, versions), k)
    ensures Extends(ranged, versions, k)
  {
    var runs := RunsIn(ranged, versions);
    assert Next(versions, versions[runs[k - 1].last], versions[runs[k - 1].last + 1]);
  }

  /** A range holding in a release is the one found there. */
  lemma {:induction false} FactInside<T>(ranged: seq<Ranged<T>>, versions: seq<Version>, k: nat, version: Version)
    requires Maximal(ranged, versions) && k < |ranged| && ranged[k].releases.Contains(version)
    ensures FactIn(ranged, version) == Some(ranged[k].fact)
  {
    assert IndexIn(ranged, version).Some?;
  }

  lemma {:induction false} SameLookUps<T>(a: seq<Run<T>>, b: seq<Run<T>>, versions: seq<Version>, index: nat)
    requires Ascending(versions) && RunsBelow(a, |versions|) && RunsBelow(b, |versions|)
    requires forall version | version in versions ::
               FactIn(RangedOf(a, versions), version) == FactIn(RangedOf(b, versions), version)
    ensures LookUp(a, index) == LookUp(b, index)
  {
    if index < |versions| {
      RangedLookUp(a, versions, index);
      RangedLookUp(b, versions, index);
      assert versions[index] in versions;
    } else {
      LookUpOutside(a, index);
      LookUpOutside(b, index);
    }
  }

  /** Two maximal lists of ranges that give every release the same fact are the same list. */
  lemma {:induction false} MaximalUnique<T>(a: seq<Ranged<T>>, b: seq<Ranged<T>>, versions: seq<Version>)
    requires Ascending(versions) && Maximal(a, versions) && Maximal(b, versions)
    requires forall version | version in versions :: FactIn(a, version) == FactIn(b, version)
    ensures a == b
  {
    MaximalIsCanonical(a, versions);
    MaximalIsCanonical(b, versions);
    var runsA, runsB := RunsIn(a, versions), RunsIn(b, versions);
    hide Maximal, Canonical, LookUp, FactIn;
    forall index: nat ensures LookUp(runsA, index) == LookUp(runsB, index) {
      SameLookUps(runsA, runsB, versions, index);
    }
    RunsUnique(runsA, runsB);
  }

  // ----- every list of the catalog is maximal

  ghost predicate MaximalHistory<D>(history: History<D>, versions: seq<Version>) {
    && Maximal(history.names, versions) && Maximal(history.availability, versions) && Maximal(history.definitions, versions)
    && forall member | member in history.domains :: Maximal(history.domains[member], versions)
  }

  ghost predicate AllMaximal(catalog: CatalogData) {
    var versions := Versions(catalog.releases);
    && (forall key | key in catalog.binaries :: Maximal(catalog.binaries[key], versions))
    && (forall key | key in catalog.commands :: MaximalHistory(catalog.commands[key], versions))
    && (forall key | key in catalog.events :: MaximalHistory(catalog.events[key], versions))
    && (forall key | key in catalog.structDomains :: Maximal(catalog.structDomains[key], versions))
    && (forall key | key in catalog.statuses :: Maximal(catalog.statuses[key], versions))
  }

  lemma {:induction false} TableMaximal<K, T>(table: map<K, seq<Ranged<T>>>, snapshots: seq<Snapshot>,
                                              facts: Snapshot -> seq<Keyed<K, T>>, versions: seq<Version>, key: K)
    requires Ascending(versions) && |versions| == |snapshots| && key in table
    requires MergedAs(table, EntriesOf(FactsOf(snapshots, facts), key), key, versions)
    requires NoOverlaps(table[key]) || Apart(RunsOf(EntriesOf(FactsOf(snapshots, facts), key)))
    ensures Maximal(table[key], versions)
  {
    var entries := EntriesOf(FactsOf(snapshots, facts), key);
    FactsOrdered(snapshots, facts);
    EntriesWeak(FactsOf(snapshots, facts), key);
    RunsStayBelow(entries, |versions|);
    if NoOverlaps(table[key]) {
      RangesApart(RunsOf(entries), versions);
    }
    ApartStrict(entries);
    RangesMaximal(entries, versions);
  }

  lemma {:induction false} DomainsMaximal<D(!new)>(history: History<D>, entries: seq<Entry<Fact<D>>>,
                                            versions: seq<Version>, member: Member)
    requires Ascending(versions) && Strict(entries) && IsHistory(history, entries, versions)
    requires member in history.domains && NoOverlaps(history.domains[member])
    ensures Maximal(history.domains[member], versions)
  {
    var documents := Project(entries, Documenting());
    var domains := EntriesOf(documents, member);
    assert MergedAs(history.domains, domains, member, versions);
    EntriesWeak(documents, member);
    RunsStayBelow(domains, |versions|);
    RangesApart(RunsOf(domains), versions);
    ApartStrict(domains);
    RangesMaximal(domains, versions);
  }

  lemma {:induction false} HistoryMaximal<D(!new)>(history: History<D>, entries: seq<Entry<Fact<D>>>,
                                            versions: seq<Version>)
    requires Ascending(versions) && Strict(entries) && IsHistory(history, entries, versions)
    requires forall member | member in history.domains :: NoOverlaps(history.domains[member])
    ensures MaximalHistory(history, versions)
  {
    hide Maximal, NoOverlaps, EntriesOf, RangesOf;
    RangesMaximal(Project(entries, NameOf()), versions);
    RangesMaximal(Project(entries, SupportedBy()), versions);
    RangesMaximal(Project(entries, DefinedAs()), versions);
    forall member | member in history.domains ensures Maximal(history.domains[member], versions) {
      DomainsMaximal(history, entries, versions, member);
    }
  }

  lemma {:induction false} HistoriesMaximal<K, D(!new)>(table: map<K, History<D>>, snapshots: seq<Snapshot>,
      facts: Snapshot -> seq<Keyed<K, Fact<D>>>, versions: seq<Version>, key: K)
    requires Ascending(versions) && |versions| == |snapshots| && key in table
    requires forall n | 0 <= n < |snapshots| :: DistinctKeys(facts(snapshots[n]))
    requires HistoryAs(table, EntriesOf(FactsOf(snapshots, facts), key), key, versions)
    requires forall member | member in table[key].domains :: NoOverlaps(table[key].domains[member])
    ensures MaximalHistory(table[key], versions)
  {
    var entries := EntriesOf(FactsOf(snapshots, facts), key);
    FactsOrdered(snapshots, facts);
    EntriesStrict(FactsOf(snapshots, facts), key);
    hide DistinctKeys, EntriesOf, MaximalHistory, IsHistory, NoOverlaps;
    HistoryMaximal(table[key], entries, versions);
  }

  lemma {:induction false} CommandsMaximal(catalog: CatalogData, snapshots: seq<Snapshot>, check: DomainCheck,
                                           key: CommandKey)
    requires IsCatalog(catalog, catalog.platform, snapshots) && Valid(catalog, check) && AllUnrepeated(snapshots)
    requires key in catalog.commands
    ensures MaximalHistory(catalog.commands[key], Versions(catalog.releases))
  {
    hide EntriesOf, RunsOf, RangesOf, ValidStatuses, ValidHistory, ValidEvent, MergedAs, ValidFact, ValidBearers,
      NoOverlaps, MaximalHistory;
    var versions := Versions(catalog.releases);
    assert HistoryAs(catalog.commands, EntriesOf(FactsOf(snapshots, COMMANDS), key), key, versions);
    hide IsCatalog, HistoryAs;
    HistoriesMaximal(catalog.commands, snapshots, COMMANDS, versions, key);
  }

  lemma {:induction false} EventsMaximal(catalog: CatalogData, snapshots: seq<Snapshot>, check: DomainCheck,
                                         key: EventKey)
    requires IsCatalog(catalog, catalog.platform, snapshots) && Valid(catalog, check) && AllUnrepeated(snapshots)
    requires key in catalog.events
    ensures MaximalHistory(catalog.events[key], Versions(catalog.releases))
  {
    hide EntriesOf, RunsOf, RangesOf, ValidStatuses, ValidHistory, ValidCommand, MergedAs, ValidFact, ValidBearers,
      NoOverlaps, MaximalHistory;
    var versions := Versions(catalog.releases);
    assert HistoryAs(catalog.events, EntriesOf(FactsOf(snapshots, EVENTS), key), key, versions);
    hide IsCatalog, HistoryAs;
    HistoriesMaximal(catalog.events, snapshots, EVENTS, versions, key);
  }

  lemma {:induction false} TablesMaximal(catalog: CatalogData, snapshots: seq<Snapshot>, check: DomainCheck)
    requires IsCatalog(catalog, catalog.platform, snapshots) && Valid(catalog, check)
    ensures forall key | key in catalog.binaries :: Maximal(catalog.binaries[key], Versions(catalog.releases))
    ensures forall key | key in catalog.structDomains :: Maximal(catalog.structDomains[key], Versions(catalog.releases))
    ensures forall key | key in catalog.statuses :: Maximal(catalog.statuses[key], Versions(catalog.releases))
  {
    hide EntriesOf, RunsOf, RangesOf, ValidStatuses, ValidCommand, ValidEvent, HistoryAs, MergedAs, Apart, Maximal, NoOverlaps;
    var versions := Versions(catalog.releases);
    forall key | key in catalog.binaries ensures Maximal(catalog.binaries[key], versions) {
      assert MergedAs(catalog.binaries, EntriesOf(FactsOf(snapshots, BINARIES), key), key, versions);
      TableMaximal(catalog.binaries, snapshots, BINARIES, versions, key);
    }
    forall key | key in catalog.structDomains ensures Maximal(catalog.structDomains[key], versions) {
      assert MergedAs(catalog.structDomains, EntriesOf(FactsOf(snapshots, STRUCT_DOMAINS), key), key, versions);
      TableMaximal(catalog.structDomains, snapshots, STRUCT_DOMAINS, versions, key);
    }
    forall key | key in catalog.statuses ensures Maximal(catalog.statuses[key], versions) {
      assert MergedAs(catalog.statuses, EntriesOf(FactsOf(snapshots, STATUSES), key), key, versions);
      StatusesApart(catalog, snapshots, versions, key);
      TableMaximal(catalog.statuses, snapshots, STATUSES, versions, key);
    }
  }

  /** Every range list of a merged catalog is made of maximal ranges; by `MaximalUnique`
      and `Lossless` it is then the only such list. */
  lemma {:induction false} CatalogMaximal(catalog: CatalogData, snapshots: seq<Snapshot>, check: DomainCheck)
    requires IsCatalog(catalog, catalog.platform, snapshots) && Valid(catalog, check) && AllUnrepeated(snapshots)
    ensures AllMaximal(catalog)
  {
    TablesMaximal(catalog, snapshots, check);
    hide IsCatalog, Valid, AllUnrepeated, Maximal, MaximalHistory;
    forall key | key in catalog.commands ensures MaximalHistory(catalog.commands[key], Versions(catalog.releases)) {
      CommandsMaximal(catalog, snapshots, check, key);
    }
    forall key | key in catalog.events ensures MaximalHistory(catalog.events[key], Versions(catalog.releases)) {
      EventsMaximal(catalog, snapshots, check, key);
    }
  }

  // ----- the order of the snapshots

  lemma {:induction false} InsertKeeps(sorted: seq<Snapshot>, snapshot: Snapshot)
    ensures multiset(Insert(sorted, snapshot)) == multiset(sorted) + multiset{snapshot}
  {
    if sorted != [] {
      var last := |sorted| - 1;
      assert sorted == sorted[..last] + [sorted[last]];
      InsertKeeps(sorted[..last], snapshot);
    }
  }

  lemma {:induction false} SortKeeps(snapshots: seq<Snapshot>)
    ensures multiset(SortByVersion(snapshots)) == multiset(snapshots)
  {
    if snapshots != [] {
      var last := |snapshots| - 1;
      assert snapshots == snapshots[..last] + [snapshots[last]];
      SortKeeps(snapshots[..last]);
      InsertKeeps(SortByVersion(snapshots[..last]), snapshots[last]);
    }
  }

  predicate Sorted(snapshots: seq<Snapshot>) {
    forall i, j | 0 <= i < j < |snapshots| :: AtMost(snapshots[i].source.version, snapshots[j].source.version)
  }

  lemma {:induction false} AtMostTransitive(a: Version, b: Version, c: Version)
    requires AtMost(a, b) && AtMost(b, c)
    ensures AtMost(a, c)
  {
  }

  lemma {:induction false} AppendSorted(sorted: seq<Snapshot>, snapshot: Snapshot)
    requires Sorted(sorted)
    requires forall other | other in sorted :: AtMost(other.source.version, snapshot.source.version)
    ensures Sorted(sorted + [snapshot])
  {
  }

  lemma {:induction false} InsertSorts(sorted: seq<Snapshot>, snapshot: Snapshot)
    requires Sorted(sorted)
    ensures Sorted(Insert(sorted, snapshot))
    ensures forall other | other in Insert(sorted, snapshot) :: other in sorted || other == snapshot
  {
    if sorted != [] {
      var last := |sorted| - 1;
      if Before(snapshot.source.version, sorted[last].source.version) {
        InsertSorts(sorted[..last], snapshot);
        AppendSorted(Insert(sorted[..last], snapshot), sorted[last]);
      } else {
        forall other | other in sorted ensures AtMost(other.source.version, snapshot.source.version) {
          AtMostTransitive(other.source.version, sorted[last].source.version, snapshot.source.version);
        }
        AppendSorted(sorted, snapshot);
      }
    }
  }

  lemma {:induction false} SortSorts(snapshots: seq<Snapshot>)
    ensures Sorted(SortByVersion(snapshots))
  {
    if snapshots != [] {
      SortSorts(snapshots[..|snapshots| - 1]);
      InsertSorts(SortByVersion(snapshots[..|snapshots| - 1]), snapshots[|snapshots| - 1]);
    }
  }

  predicate StrictlySorted(snapshots: seq<Snapshot>) {
    forall i, j | 0 <= i < j < |snapshots| :: Before(snapshots[i].source.version, snapshots[j].source.version)
  }

  lemma {:induction false} SameLast(a: seq<Snapshot>, b: seq<Snapshot>)
    requires StrictlySorted(a) && Sorted(b) && a != [] && b != [] && multiset(a) == multiset(b)
    ensures a[|a| - 1] == b[|b| - 1]
  {
    var x, y := a[|a| - 1], b[|b| - 1];
    assert x in multiset(a) && y in multiset(b);
    assert x in b && y in a;
    var i :| 0 <= i < |a| && a[i] == y;
    var j :| 0 <= j < |b| && b[j] == x;
    assert i < |a| - 1 ==> Before(y.source.version, x.source.version);
    assert j < |b| - 1 ==> AtMost(x.source.version, y.source.version);
  }

  lemma {:induction false} WithoutLast<T>(s: seq<T>)
    requires s != []
    ensures multiset(s[..|s| - 1]) == multiset(s) - multiset{s[|s| - 1]}
  {
    assert s == s[..|s| - 1] + [s[|s| - 1]];
  }

  lemma {:induction false} Shorter(a: seq<Snapshot>, b: seq<Snapshot>)
    requires StrictlySorted(a) && Sorted(b) && a != [] && b != []
    ensures StrictlySorted(a[..|a| - 1]) && Sorted(b[..|b| - 1])
  {
  }

  lemma {:induction false} SortedUniquely(a: seq<Snapshot>, b: seq<Snapshot>)
    requires StrictlySorted(a) && Sorted(b) && multiset(a) == multiset(b)
    ensures a == b
  {
    hide *;
    assert |a| == |multiset(a)| == |multiset(b)| == |b|;
    if a != [] {
      SameLast(a, b);
      Shorter(a, b);
      WithoutLast(a);
      WithoutLast(b);
      SortedUniquely(a[..|a| - 1], b[..|b| - 1]);
      assert a == a[..|a| - 1] + [a[|a| - 1]] && b == b[..|b| - 1] + [b[|b| - 1]];
    }
  }

  lemma {:induction false} SameHistory<D(!new)>(a: History<D>, b: History<D>, entries: seq<Entry<Fact<D>>>,
                                         versions: seq<Version>)
    requires IsHistory(a, entries, versions) && IsHistory(b, entries, versions)
    ensures a == b
  {
    hide EntriesOf, RangesOf, Project, Below;
    forall member
      ensures member in a.domains <==> member in b.domains
      ensures member in a.domains ==> a.domains[member] == b.domains[member]
    {
      var domains := EntriesOf(Project(entries, Documenting()), member);
      assert MergedAs(a.domains, domains, member, versions) && MergedAs(b.domains, domains, member, versions);
    }
    assert a.domains == b.domains;
  }

  lemma {:induction false} SameTable<K(!new), T>(a: map<K, seq<Ranged<T>>>, b: map<K, seq<Ranged<T>>>,
                                       facts: seq<Entry<seq<Keyed<K, T>>>>, versions: seq<Version>)
    requires forall key :: MergedAs(a, EntriesOf(facts, key), key, versions)
    requires forall key :: MergedAs(b, EntriesOf(facts, key), key, versions)
    ensures a == b
  {
    hide EntriesOf, RangesOf, Below;
    forall key
      ensures key in a <==> key in b
      ensures key in a ==> a[key] == b[key]
    {
      assert MergedAs(a, EntriesOf(facts, key), key, versions) && MergedAs(b, EntriesOf(facts, key), key, versions);
    }
  }

  lemma {:induction false} SameHistories<K(!new), D(!new)>(a: map<K, History<D>>, b: map<K, History<D>>,
                                           facts: seq<Entry<seq<Keyed<K, Fact<D>>>>>, versions: seq<Version>)
    requires forall key :: HistoryAs(a, EntriesOf(facts, key), key, versions)
    requires forall key :: HistoryAs(b, EntriesOf(facts, key), key, versions)
    ensures a == b
  {
    hide EntriesOf, IsHistory;
    forall key
      ensures key in a <==> key in b
      ensures key in a ==> a[key] == b[key]
    {
      assert HistoryAs(a, EntriesOf(facts, key), key, versions) && HistoryAs(b, EntriesOf(facts, key), key, versions);
      if key in a {
        SameHistory(a[key], b[key], EntriesOf(facts, key), versions);
      }
    }
  }

  /** The snapshots, in release order, determine the catalog. */
  lemma {:induction false} CatalogUnique(a: CatalogData, b: CatalogData, platform: Platform, snapshots: seq<Snapshot>)
    requires IsCatalog(a, platform, snapshots) && IsCatalog(b, platform, snapshots)
    ensures a == b
  {
    hide EntriesOf, MergedAs, HistoryAs;
    var versions := Versions(Sources(snapshots));
    SameTable(a.binaries, b.binaries, FactsOf(snapshots, BINARIES), versions);
    SameHistories(a.commands, b.commands, FactsOf(snapshots, COMMANDS), versions);
    SameHistories(a.events, b.events, FactsOf(snapshots, EVENTS), versions);
    SameTable(a.structDomains, b.structDomains, FactsOf(snapshots, STRUCT_DOMAINS), versions);
    SameTable(a.statuses, b.statuses, FactsOf(snapshots, STATUSES), versions);
  }

  /** The same snapshots in another order merge to the same catalog, if they merge to a
      valid one. */
  lemma {:induction false} OrderIrrelevant(a: CatalogData, b: CatalogData, platform: Platform,
                                           snapshots: seq<Snapshot>, others: seq<Snapshot>, check: DomainCheck)
    requires multiset(snapshots) == multiset(others)
    requires IsCatalog(a, platform, SortByVersion(snapshots)) && Valid(a, check)
    ensures SortByVersion(snapshots) == SortByVersion(others)
    ensures IsCatalog(b, platform, SortByVersion(others)) ==> a == b
  {
    var sorted := SortByVersion(snapshots);
    SortKeeps(snapshots);
    SortKeeps(others);
    SortSorts(others);
    assert StrictlySorted(sorted) by {
      hide SortByVersion, ValidStatuses, ValidCommand, ValidEvent, MergedAs, HistoryAs;
      var versions := Versions(a.releases);
      forall i, j | 0 <= i < j < |sorted| ensures Before(sorted[i].source.version, sorted[j].source.version) {
        assert Before(versions[i], versions[j]);
      }
    }
    hide IsCatalog, Valid, SortByVersion;
    SortedUniquely(sorted, SortByVersion(others));
    if IsCatalog(b, platform, SortByVersion(others)) {
      CatalogUnique(a, b, platform, sorted);
    }
  }

  /** The merged catalog has exactly the snapshots' releases, and shows every snapshot. */
  lemma {:induction false} SnapshotsMerged(catalog: CatalogData, snapshots: seq<Snapshot>, check: DomainCheck)
    requires IsCatalog(catalog, catalog.platform, SortByVersion(snapshots))
    requires AllUnrepeated(SortByVersion(snapshots)) && Valid(catalog, check)
    ensures |catalog.releases| == |snapshots|
    ensures forall snapshot | snapshot in snapshots :: snapshot.source in catalog.releases && ShowsSnapshot(catalog, snapshot)
  {
    var sorted := SortByVersion(snapshots);
    SortKeeps(snapshots);
    assert catalog.releases == Sources(sorted);
    hide IsCatalog, AllUnrepeated, Valid, SortByVersion, ShowsSnapshot;
    forall snapshot | snapshot in snapshots
      ensures snapshot.source in catalog.releases && ShowsSnapshot(catalog, snapshot)
    {
      assert snapshot in multiset(snapshots) && snapshot in multiset(sorted);
      var i :| 0 <= i < |sorted| && sorted[i] == snapshot;
      assert catalog.releases[i] == snapshot.source;
      Lossless(catalog, sorted, check, i);
    }
  }
}

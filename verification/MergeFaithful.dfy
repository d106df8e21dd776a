/** Merging loses nothing, is canonical, and ignores the order of the snapshots. */
module MergeFaithful {
  import opened Options
  import opened Release
  import opened Runs
  import opened Catalog
  import opened Merge

  // ----- looking a release up in ranges

  lemma {:induction false} RangedLookUp<T>(runs: seq<Run<T>>, versions: seq<Version>, i: nat)
    requires Ascending(versions) && RunsBelow(runs, |versions|) && i < |versions|
    ensures FactIn(RangedOf(runs, versions), versions[i]) == LookUp(runs, i)
  {
    if runs != [] {
      RangedLookUp(runs[1..], versions, i);
      assert RangedOf(runs, versions)[1..] == RangedOf(runs[1..], versions);
      OrderByIndex(versions, runs[0].first, i);
      OrderByIndex(versions, i, runs[0].last);
    }
  }

  lemma {:induction false} RangesLookUp<T>(entries: seq<Entry<T>>, versions: seq<Version>, i: nat)
    requires Ascending(versions) && Below(entries, |versions|) && Strict(entries) && i < |versions|
    ensures FactIn(RangesOf(entries, versions), versions[i]) == FactAt(entries, i)
  {
    RunsStayBelow(entries, |versions|);
    RangedLookUp(RunsOf(entries), versions, i);
    RunsLookUp(entries, i);
  }

  lemma {:induction false} FactProjected<T, U>(entries: seq<Entry<T>>, value: T -> U, i: nat)
    ensures FactAt(Project(entries, value), i) ==
            match FactAt(entries, i) case None => None case Some(fact) => Some(value(fact))
  {
    if entries != [] {
      assert Project(entries, value)[1..] == Project(entries[1..], value);
      FactProjected(entries[1..], value, i);
    }
  }

  // ----- the facts of one release

  /** The fact a release records first for `key`. */
  function Recorded<K(==), V>(items: seq<Keyed<K, V>>, key: K): Option<V> {
    if items == [] then None
    else
      var last := |items| - 1;
      var first := Recorded(items[..last], key);
      if first.Some? then first
      else if items[last].key == key then Some(items[last].fact) else None
  }

  lemma {:induction false} FactAppendAll<T>(entries: seq<Entry<T>>, more: seq<Entry<T>>, i: nat)
    ensures FactAt(entries + more, i) == if FactAt(entries, i).Some? then FactAt(entries, i) else FactAt(more, i)
  {
    if entries == [] {
      assert entries + more == more;
    } else {
      assert (entries + more)[1..] == entries[1..] + more;
      FactAppendAll(entries[1..], more, i);
    }
  }

  lemma {:induction false} OfKeyAt<K, V>(index: nat, items: seq<Keyed<K, V>>, key: K, i: nat)
    ensures FactAt(OfKey(index, items, key), i) == if i == index then Recorded(items, key) else None
  {
    if items != [] {
      var last := |items| - 1;
      OfKeyAt(index, items[..last], key, i);
      FactAppendAll(OfKey(index, items[..last], key),
                    if items[last].key == key then [Entry(index, items[last].fact)] else [], i);
    }
  }

  lemma {:induction false} EntriesAt<K, V>(facts: seq<Entry<seq<Keyed<K, V>>>>, key: K, i: nat)
    requires Strict(facts)
    ensures FactAt(EntriesOf(facts, key), i) ==
            match FactAt(facts, i) case None => None case Some(items) => Recorded(items, key)
  {
    if facts != [] {
      var last := |facts| - 1;
      EntriesAt(facts[..last], key, i);
      OfKeyAt(facts[last].index, facts[last].fact, key, i);
      FactAppendAll(EntriesOf(facts[..last], key), OfKey(facts[last].index, facts[last].fact, key), i);
      assert facts == facts[..last] + [facts[last]];
      FactAppend(facts[..last], facts[last], i);
      if facts[last].index == i {
        FactBeyond(facts[..last], i);
      }
    }
  }

  lemma {:induction false} PositionAt<T>(facts: seq<Entry<T>>, i: nat, from: nat)
    requires forall n | 0 <= n < |facts| :: facts[n].index == from + n
    requires from <= i < from + |facts|
    ensures FactAt(facts, i) == Some(facts[i - from].fact)
  {
    if i != from {
      PositionAt(facts[1..], i, from + 1);
    }
  }

  // ----- disjoint ranges come from one fact per release

  predicate Weak<T>(entries: seq<Entry<T>>) {
    forall i, j | 0 <= i < j < |entries| :: entries[i].index <= entries[j].index
  }

  ghost predicate Apart<T>(runs: seq<Run<T>>) {
    forall j, k | 0 <= j < k < |runs| :: !(runs[j].first <= runs[k].last && runs[k].first <= runs[j].last)
  }

  lemma {:induction false} RunsEndLast<T>(entries: seq<Entry<T>>)
    requires Weak(entries) && entries != []
    ensures var runs := RunsOf(entries);
            runs[|runs| - 1].last == entries[|entries| - 1].index
    ensures forall k | 0 <= k < |RunsOf(entries)| :: RunsOf(entries)[k].first <= RunsOf(entries)[k].last
  {
    if |entries| > 1 {
      RunsEndLast(entries[..|entries| - 1]);
    }
  }

  /** Runs before and after one more entry. */
  ghost predicate Longer<T>(before: seq<Run<T>>, runs: seq<Run<T>>) {
    && 0 < |before| <= |runs|
    && (forall k | 0 <= k < |before| - 1 :: runs[k] == before[k])
    && runs[|before| - 1].first == before[|before| - 1].first
    && before[|before| - 1].last <= runs[|before| - 1].last
  }

  lemma {:induction false} OneMoreEntry<T>(entries: seq<Entry<T>>)
    requires Weak(entries) && |entries| > 1
    ensures Longer(RunsOf(entries[..|entries| - 1]), RunsOf(entries))
  {
    var prefix, entry := entries[..|entries| - 1], entries[|entries| - 1];
    var before, runs := RunsOf(prefix), RunsOf(entries);
    var last := |before| - 1;
    RunsEndLast(prefix);
    assert before[last].last == entries[|entries| - 2].index <= entry.index;
    hide RunsOf, Weak;
  }

  lemma {:induction false} RepeatedRun<T>(entries: seq<Entry<T>>)
    requires Weak(entries) && |entries| > 1 && entries[|entries| - 2].index == entries[|entries| - 1].index
    ensures !Apart(RunsOf(entries))
  {
    var prefix, entry := entries[..|entries| - 1], entries[|entries| - 1];
    var before, runs := RunsOf(prefix), RunsOf(entries);
    var last := |before| - 1;
    RunsEndLast(prefix);
    assert before[last].last == entries[|entries| - 2].index == entry.index;
    assert runs == before + [Run(entry.index, entry.index, entry.fact)];
    hide RunsOf, Weak;
    assert runs[last] == before[last] && runs[last + 1].first == entry.index;
  }

  lemma {:induction false} ApartBefore<T>(before: seq<Run<T>>, runs: seq<Run<T>>)
    requires Longer(before, runs) && Apart(runs)
    requires forall k | 0 <= k < |before| :: before[k].first <= before[k].last
    ensures Apart(before)
  {
    forall j, k | 0 <= j < k < |before|
      ensures !(before[j].first <= before[k].last && before[k].first <= before[j].last)
    {
      assert !(runs[j].first <= runs[k].last && runs[k].first <= runs[j].last);
    }
  }

  /** Two facts of one key in one release start two runs that share it. */
  lemma {:induction false} ApartStrict<T>(entries: seq<Entry<T>>)
    requires Weak(entries) && Apart(RunsOf(entries))
    ensures Strict(entries)
  {
    if |entries| > 1 {
      var prefix := entries[..|entries| - 1];
      OneMoreEntry(entries);
      RunsEndLast(prefix);
      if prefix[|prefix| - 1].index == entries[|entries| - 1].index {
        RepeatedRun(entries);
      }
      hide Apart, Longer, RunsOf;
      ApartBefore(RunsOf(prefix), RunsOf(entries));
      ApartStrict(prefix);
      assert prefix[|prefix| - 1].index < entries[|entries| - 1].index;
    }
  }

  lemma {:induction false} RangesApart<T>(runs: seq<Run<T>>, versions: seq<Version>)
    requires Ascending(versions) && RunsBelow(runs, |versions|)
    requires NoOverlaps(RangedOf(runs, versions))
    ensures Apart(runs)
  {
    forall j, k | 0 <= j < k < |runs|
      ensures !(runs[j].first <= runs[k].last && runs[k].first <= runs[j].last)
    {
      assert !RangedOf(runs, versions)[j].releases.Overlaps(RangedOf(runs, versions)[k].releases);
      OrderByIndex(versions, runs[j].first, runs[k].last);
      OrderByIndex(versions, runs[k].first, runs[j].last);
    }
  }

  lemma {:induction false} EntriesWeak<K, V>(facts: seq<Entry<seq<Keyed<K, V>>>>, key: K)
    requires Strict(facts)
    ensures Weak(EntriesOf(facts, key))
  {
    if facts != [] {
      var last := |facts| - 1;
      EntriesWeak(facts[..last], key);
      EntriesBelow(facts[..last], key, facts[last].index);
      OfKeyIndex(facts[last].index, facts[last].fact, key);
    }
  }

  // ----- what the catalog shows of a release

  /** The fact a table gives a key in a release. */
  function At<K, T>(table: map<K, seq<Ranged<T>>>, key: K, version: Version): Option<T> {
    if key in table then FactIn(table[key], version) else None
  }

  function HistoryIn<K, D>(table: map<K, History<D>>, key: K): Option<History<D>> {
    if key in table then Some(table[key]) else None
  }

  /** The name, profiles, definition and documented values of a command or event in a
      release, or none of them, are those of the release's fact. */
  ghost predicate Shows<D>(history: Option<History<D>>, version: Version, fact: Option<Fact<D>>) {
    match history
    case None => fact.None?
    case Some(h) =>
      && FactIn(h.names, version) == (if fact.Some? then Some(fact.value.name) else None)
      && FactIn(h.availability, version) == (if fact.Some? then Some(Normalized(fact.value.profiles)) else None)
      && FactIn(h.definitions, version) == (if fact.Some? then Some(fact.value.definition) else None)
      && forall member ::
           At(h.domains, member, version) == if fact.Some? then Recorded(fact.value.domains, member) else None
  }

  /** The catalog gives a release exactly what its snapshot says. */
  ghost predicate ShowsSnapshot(catalog: CatalogData, snapshot: Snapshot) {
    var version := snapshot.source.version;
    && (forall key :: At(catalog.binaries, key, version) == Recorded(snapshot.binaries, key))
    && (forall key :: Shows(HistoryIn(catalog.commands, key), version, Recorded(snapshot.commands, key)))
    && (forall key :: Shows(HistoryIn(catalog.events, key), version, Recorded(snapshot.events, key)))
    && (forall key :: At(catalog.structDomains, key, version) == Recorded(snapshot.structDomains, key))
    && (forall key :: At(catalog.statuses, key, version) == Recorded(snapshot.statuses, key))
  }

  lemma {:induction false} TableLookUp<K, T>(table: map<K, seq<Ranged<T>>>, entries: seq<Entry<T>>, key: K,
                                             versions: seq<Version>, i: nat)
    requires Ascending(versions) && i < |versions| && Strict(entries) && MergedAs(table, entries, key, versions)
    ensures At(table, key, versions[i]) == FactAt(entries, i)
  {
    if key in table {
      RangesLookUp(entries, versions, i);
    }
  }

  lemma {:induction false} DomainShown<D(!new)>(history: History<D>, entries: seq<Entry<Fact<D>>>,
                                         versions: seq<Version>, i: nat, member: Member)
    requires Ascending(versions) && i < |versions| && Strict(entries) && IsHistory(history, entries, versions)
    requires member in history.domains ==> NoOverlaps(history.domains[member])
    ensures At(history.domains, member, versions[i]) ==
            match FactAt(entries, i) case None => None case Some(fact) => Recorded(fact.domains, member)
  {
    var documents := Project(entries, Documenting());
    var domains := EntriesOf(documents, member);
    assert MergedAs(history.domains, domains, member, versions);
    EntriesWeak(documents, member);
    if member in history.domains {
      RunsStayBelow(domains, |versions|);
      RangesApart(RunsOf(domains), versions);
      ApartStrict(domains);
    }
    TableLookUp(history.domains, domains, member, versions, i);
    EntriesAt(documents, member, i);
    FactProjected(entries, Documenting(), i);
  }

  function Mapped<T, U>(fact: Option<T>, value: T -> U): Option<U> {
    match fact case None => None case Some(x) => Some(value(x))
  }

  lemma {:induction false} ProjectionShown<T, U>(ranged: seq<Ranged<U>>, entries: seq<Entry<T>>, value: T -> U,
      versions: seq<Version>, i: nat)
    requires Ascending(versions) && i < |versions| && Strict(entries) && Below(entries, |versions|)
    requires ranged == RangesOf(Project(entries, value), versions)
    ensures FactIn(ranged, versions[i]) == Mapped(FactAt(entries, i), value)
  {
    RangesLookUp(Project(entries, value), versions, i);
    FactProjected(entries, value, i);
  }

  lemma {:induction false} HistoryShown<D(!new)>(history: History<D>, entries: seq<Entry<Fact<D>>>,
                                          versions: seq<Version>, i: nat)
    requires Ascending(versions) && i < |versions| && Strict(entries) && IsHistory(history, entries, versions)
    requires forall member | member in history.domains :: NoOverlaps(history.domains[member])
    ensures Shows(Some(history), versions[i], FactAt(entries, i))
  {
    hide Ascending, Strict, Below, NoOverlaps, RangesOf, Project, EntriesOf, FactIn, FactAt, MergedAs, Recorded, At;
    ProjectionShown(history.names, entries, NameOf(), versions, i);
    ProjectionShown(history.availability, entries, SupportedBy(), versions, i);
    ProjectionShown(history.definitions, entries, DefinedAs(), versions, i);
    forall member
      ensures At(history.domains, member, versions[i]) ==
              match FactAt(entries, i) case None => None case Some(fact) => Recorded(fact.domains, member)
    {
      DomainShown(history, entries, versions, i, member);
    }
  }

  /** Facts listed once per release are found again. */
  lemma {:induction false} FactsFound<K, V>(snapshots: seq<Snapshot>, facts: Snapshot -> seq<Keyed<K, V>>, key: K,
                                            i: nat)
    requires i < |snapshots|
    ensures FactAt(EntriesOf(FactsOf(snapshots, facts), key), i) == Recorded(facts(snapshots[i]), key)
  {
    FactsOrdered(snapshots, facts);
    EntriesAt(FactsOf(snapshots, facts), key, i);
    PositionAt(FactsOf(snapshots, facts), i, 0);
  }

  lemma {:induction false} TableShown<K, T>(table: map<K, seq<Ranged<T>>>, snapshots: seq<Snapshot>,
                                            facts: Snapshot -> seq<Keyed<K, T>>, versions: seq<Version>, key: K,
                                            i: nat)
    requires Ascending(versions) && |versions| == |snapshots| && i < |versions|
    requires MergedAs(table, EntriesOf(FactsOf(snapshots, facts), key), key, versions)
    requires key in table ==> NoOverlaps(table[key]) || Apart(RunsOf(EntriesOf(FactsOf(snapshots, facts), key)))
    ensures At(table, key, versions[i]) == Recorded(facts(snapshots[i]), key)
  {
    var entries := EntriesOf(FactsOf(snapshots, facts), key);
    FactsOrdered(snapshots, facts);
    EntriesWeak(FactsOf(snapshots, facts), key);
    if key in table {
      RunsStayBelow(entries, |versions|);
      if NoOverlaps(table[key]) {
        RangesApart(RunsOf(entries), versions);
      }
      ApartStrict(entries);
    }
    TableLookUp(table, entries, key, versions, i);
    FactsFound(snapshots, facts, key, i);
  }

  lemma {:induction false} HistoriesShown<K, D(!new)>(table: map<K, History<D>>, snapshots: seq<Snapshot>,
      facts: Snapshot -> seq<Keyed<K, Fact<D>>>, versions: seq<Version>, key: K, i: nat)
    requires Ascending(versions) && |versions| == |snapshots| && i < |versions|
    requires forall n | 0 <= n < |snapshots| :: DistinctKeys(facts(snapshots[n]))
    requires HistoryAs(table, EntriesOf(FactsOf(snapshots, facts), key), key, versions)
    requires key in table ==> forall member | member in table[key].domains :: NoOverlaps(table[key].domains[member])
    ensures Shows(HistoryIn(table, key), versions[i], Recorded(facts(snapshots[i]), key))
  {
    var entries := EntriesOf(FactsOf(snapshots, facts), key);
    FactsOrdered(snapshots, facts);
    EntriesStrict(FactsOf(snapshots, facts), key);
    FactsFound(snapshots, facts, key, i);
    hide *;
    ShownOrAbsent(table, entries, key, versions, i);
  }

  lemma {:induction false} ShownOrAbsent<K, D(!new)>(table: map<K, History<D>>, entries: seq<Entry<Fact<D>>>, key: K,
                                              versions: seq<Version>, i: nat)
    requires Ascending(versions) && i < |versions| && Strict(entries) && HistoryAs(table, entries, key, versions)
    requires key in table ==> forall member | member in table[key].domains :: NoOverlaps(table[key].domains[member])
    ensures Shows(HistoryIn(table, key), versions[i], FactAt(entries, i))
  {
    if key in table {
      HistoryShown(table[key], entries, versions, i);
    }
  }

  /** Validated statuses are defined once per release. */
  lemma {:induction false} StatusOnce(catalog: CatalogData, key: StatusKey, version: Version, j: nat, k: nat)
    requires ValidStatuses(catalog) && version in Versions(catalog.releases)
    requires key in catalog.statuses && j < k < |catalog.statuses[key]|
    ensures !(catalog.statuses[key][j].releases.Contains(version) && catalog.statuses[key][k].releases.Contains(version))
  {
  }

  lemma {:induction false} StatusRunsApart(catalog: CatalogData, runs: seq<Run<()>>, versions: seq<Version>,
                                           key: StatusKey, j: nat, k: nat)
    requires ValidStatuses(catalog) && versions == Versions(catalog.releases) && Ascending(versions)
    requires RunsBelow(runs, |versions|) && key in catalog.statuses && catalog.statuses[key] == RangedOf(runs, versions)
    requires j < k < |runs| && runs[j].first <= runs[j].last && runs[k].first <= runs[k].last
    ensures !(runs[j].first <= runs[k].last && runs[k].first <= runs[j].last)
  {
    hide ValidStatuses;
    var i := if runs[j].first <= runs[k].first then runs[k].first else runs[j].first;
    OrderByIndex(versions, runs[j].first, i);
    OrderByIndex(versions, runs[k].first, i);
    OrderByIndex(versions, i, runs[j].last);
    OrderByIndex(versions, i, runs[k].last);
    StatusOnce(catalog, key, versions[i], j, k);
  }

  lemma {:induction false} StatusesApart(catalog: CatalogData, snapshots: seq<Snapshot>, versions: seq<Version>,
                                         key: StatusKey)
    requires versions == Versions(catalog.releases) && Ascending(versions) && |versions| == |snapshots|
    requires MergedAs(catalog.statuses, EntriesOf(FactsOf(snapshots, STATUSES), key), key, versions)
    requires ValidStatuses(catalog) && key in catalog.statuses
    ensures Apart(RunsOf(EntriesOf(FactsOf(snapshots, STATUSES), key)))
  {
    var entries := EntriesOf(FactsOf(snapshots, STATUSES), key);
    var runs := RunsOf(entries);
    RunsStayBelow(entries, |versions|);
    FactsOrdered(snapshots, STATUSES);
    EntriesWeak(FactsOf(snapshots, STATUSES), key);
    RunsEndLast(entries);
    hide EntriesOf, RunsOf, ValidStatuses, Strict, Weak, Below, RunsBelow, Ascending;
    forall j, k | 0 <= j < k < |runs|
      ensures !(runs[j].first <= runs[k].last && runs[k].first <= runs[j].last)
    {
      StatusRunsApart(catalog, runs, versions, key, j, k);
    }
  }

  lemma {:induction false} BinariesShown(catalog: CatalogData, snapshots: seq<Snapshot>, check: DomainCheck, i: nat,
                                         key: BinaryKey)
    requires IsCatalog(catalog, catalog.platform, snapshots) && Valid(catalog, check) && i < |snapshots|
    ensures At(catalog.binaries, key, snapshots[i].source.version) == Recorded(snapshots[i].binaries, key)
  {
    hide EntriesOf, RunsOf, RangesOf, FactIn, At, Recorded, ValidStatuses, ValidCommand, ValidEvent, HistoryAs;
    var versions := Versions(catalog.releases);
    assert MergedAs(catalog.binaries, EntriesOf(FactsOf(snapshots, BINARIES), key), key, versions);
    TableShown(catalog.binaries, snapshots, BINARIES, versions, key, i);
  }

  lemma {:induction false} StructDomainsShown(catalog: CatalogData, snapshots: seq<Snapshot>, check: DomainCheck,
                                              i: nat, key: StructMember)
    requires IsCatalog(catalog, catalog.platform, snapshots) && Valid(catalog, check) && i < |snapshots|
    ensures At(catalog.structDomains, key, snapshots[i].source.version) == Recorded(snapshots[i].structDomains, key)
  {
    hide EntriesOf, RunsOf, RangesOf, FactIn, At, Recorded, ValidStatuses, ValidCommand, ValidEvent, HistoryAs;
    var versions := Versions(catalog.releases);
    assert MergedAs(catalog.structDomains, EntriesOf(FactsOf(snapshots, STRUCT_DOMAINS), key), key, versions);
    TableShown(catalog.structDomains, snapshots, STRUCT_DOMAINS, versions, key, i);
  }

  lemma {:induction false} StatusesShown(catalog: CatalogData, snapshots: seq<Snapshot>, check: DomainCheck, i: nat,
                                         key: StatusKey)
    requires IsCatalog(catalog, catalog.platform, snapshots) && Valid(catalog, check) && i < |snapshots|
    ensures At(catalog.statuses, key, snapshots[i].source.version) == Recorded(snapshots[i].statuses, key)
  {
    hide EntriesOf, RunsOf, RangesOf, FactIn, At, Recorded, ValidStatuses, ValidCommand, ValidEvent, HistoryAs, Apart;
    var versions := Versions(catalog.releases);
    assert MergedAs(catalog.statuses, EntriesOf(FactsOf(snapshots, STATUSES), key), key, versions);
    if key in catalog.statuses {
      StatusesApart(catalog, snapshots, versions, key);
    }
    TableShown(catalog.statuses, snapshots, STATUSES, versions, key, i);
  }

  lemma {:induction false} CommandsShown(catalog: CatalogData, snapshots: seq<Snapshot>, check: DomainCheck, i: nat,
                                         key: CommandKey)
    requires IsCatalog(catalog, catalog.platform, snapshots) && Valid(catalog, check) && i < |snapshots|
    requires AllUnrepeated(snapshots)
    ensures Shows(HistoryIn(catalog.commands, key), snapshots[i].source.version, Recorded(snapshots[i].commands, key))
  {
    hide EntriesOf, RunsOf, RangesOf, FactIn, Shows, Recorded, ValidStatuses, ValidHistory, ValidEvent, MergedAs,
      ValidFact, ValidBearers, NoOverlaps;
    var versions := Versions(catalog.releases);
    assert HistoryAs(catalog.commands, EntriesOf(FactsOf(snapshots, COMMANDS), key), key, versions);
    hide IsCatalog, HistoryAs;
    HistoriesShown(catalog.commands, snapshots, COMMANDS, versions, key, i);
  }

  lemma {:induction false} EventsShown(catalog: CatalogData, snapshots: seq<Snapshot>, check: DomainCheck, i: nat,
                                       key: EventKey)
    requires IsCatalog(catalog, catalog.platform, snapshots) && Valid(catalog, check) && i < |snapshots|
    requires AllUnrepeated(snapshots)
    ensures Shows(HistoryIn(catalog.events, key), snapshots[i].source.version, Recorded(snapshots[i].events, key))
  {
    hide EntriesOf, RunsOf, RangesOf, FactIn, Shows, Recorded, ValidStatuses, ValidHistory, ValidCommand, MergedAs,
      ValidFact, ValidBearers, NoOverlaps;
    var versions := Versions(catalog.releases);
    assert HistoryAs(catalog.events, EntriesOf(FactsOf(snapshots, EVENTS), key), key, versions);
    hide IsCatalog, HistoryAs;
    HistoriesShown(catalog.events, snapshots, EVENTS, versions, key, i);
  }

  /** Merging is lossless: whenever it succeeds, looking anything up in any release gives
      what that release's snapshot says, and nothing where it says nothing. */
  lemma {:induction false} Lossless(catalog: CatalogData, snapshots: seq<Snapshot>, check: DomainCheck, i: nat)
    requires IsCatalog(catalog, catalog.platform, snapshots) && AllUnrepeated(snapshots) && Valid(catalog, check)
    requires i < |snapshots|
    ensures ShowsSnapshot(catalog, snapshots[i])
  {
    hide IsCatalog, AllUnrepeated, Valid, At, Recorded, Shows;
    forall key { BinariesShown(catalog, snapshots, check, i, key); }
    forall key { CommandsShown(catalog, snapshots, check, i, key); }
    forall key { EventsShown(catalog, snapshots, check, i, key); }
    forall key { StructDomainsShown(catalog, snapshots, check, i, key); }
    forall key { StatusesShown(catalog, snapshots, check, i, key); }
  }
}

/** Merging one snapshot per release into the catalog's release-ranged histories
    (crates/stm32wb-catalog/src/merge.rs). */
module Merge {
  import opened Options
  import opened Release
  import opened Runs
  import opened Domains
  import opened Catalog

  datatype Keyed<K, V> = Keyed(key: K, fact: V)

  /** What one release says of a command or event. */
  datatype Fact<D> = Fact(name: string, profiles: seq<Profile>, definition: D, domains: seq<Keyed<Member, Domain>>)

  datatype Snapshot = Snapshot(
    source: ReleaseSource,
    binaries: seq<Keyed<BinaryKey, ()>>,
    commands: seq<Keyed<CommandKey, Fact<CommandDefinition>>>,
    events: seq<Keyed<EventKey, Fact<EventDefinition>>>,
    structDomains: seq<Keyed<StructMember, Domain>>,
    statuses: seq<Keyed<StatusKey, ()>>)

  // ----- grouping facts by key

  /** The facts one release records for `key`. */
  function OfKey<K(==), V>(index: nat, items: seq<Keyed<K, V>>, key: K): seq<Entry<V>> {
    if items == [] then [] else
    var last := |items| - 1;
    OfKey(index, items[..last], key) + if items[last].key == key then [Entry(index, items[last].fact)] else []
  }

  /** The facts every release records for `key`, in release order. */
  function EntriesOf<K(==), V>(facts: seq<Entry<seq<Keyed<K, V>>>>, key: K): seq<Entry<V>> {
    if facts == [] then [] else
    var last := |facts| - 1;
    EntriesOf(facts[..last], key) + OfKey(facts[last].index, facts[last].fact, key)
  }

  predicate DistinctKeys<K(==), V>(items: seq<Keyed<K, V>>) {
    forall i, j | 0 <= i < j < |items| :: items[i].key != items[j].key
  }

  function GetEntries<K, V>(table: map<K, seq<Entry<V>>>, key: K): seq<Entry<V>> {
    if key in table then table[key] else []
  }

  /** A table holds exactly the nonempty lists of entries. */
  ghost predicate Groups<K(!new), V(!new)>(table: map<K, seq<Entry<V>>>, facts: seq<Entry<seq<Keyed<K, V>>>>) {
    && (forall key | key in table :: table[key] != [])
    && (forall key :: GetEntries(table, key) == EntriesOf(facts, key))
  }

  lemma {:induction false} OfKeyIndex<K, V>(index: nat, items: seq<Keyed<K, V>>, key: K)
    ensures forall k | 0 <= k < |OfKey(index, items, key)| :: OfKey(index, items, key)[k].index == index
    ensures OfKey(index, items, key) != [] <==> exists i | 0 <= i < |items| :: items[i].key == key
  {
    if items != [] {
      OfKeyIndex(index, items[..|items| - 1], key);
    }
  }

  lemma {:induction false} EntriesBelow<K, V>(facts: seq<Entry<seq<Keyed<K, V>>>>, key: K, bound: nat)
    requires forall i | 0 <= i < |facts| :: facts[i].index < bound
    ensures forall k | 0 <= k < |EntriesOf(facts, key)| :: EntriesOf(facts, key)[k].index < bound
  {
    if facts != [] {
      EntriesBelow(facts[..|facts| - 1], key, bound);
      OfKeyIndex(facts[|facts| - 1].index, facts[|facts| - 1].fact, key);
    }
  }

  /** `after` is `before` with the facts of one release added to each key's list. */
  ghost predicate Added<K(!new), V(!new)>(before: map<K, seq<Entry<V>>>, after: map<K, seq<Entry<V>>>, index: nat,
                          items: seq<Keyed<K, V>>)
  {
    && (forall key | key in after :: after[key] != [])
    && (forall key :: AddedFor(before, after, index, items, key))
  }

  ghost predicate AddedFor<K, V>(before: map<K, seq<Entry<V>>>, after: map<K, seq<Entry<V>>>, index: nat,
                                 items: seq<Keyed<K, V>>, key: K)
  {
    GetEntries(after, key) == GetEntries(before, key) + OfKey(index, items, key)
  }

  ghost predicate AllBelow<K, V>(table: map<K, seq<Entry<V>>>, index: nat) {
    forall key | key in table :: forall k | 0 <= k < |table[key]| :: table[key][k].index < index
  }

  /** Whether the release has a fact for the key already is seen from the last entry. */
  lemma {:induction false} RepeatedKey<K(!new), V(!new)>(before: map<K, seq<Entry<V>>>, after: map<K, seq<Entry<V>>>,
                                         index: nat, items: seq<Keyed<K, V>>, key: K)
    requires AllBelow(before, index) && Added(before, after, index, items)
    ensures var entries := GetEntries(after, key);
            entries != [] && entries[|entries| - 1].index == index
            <==> exists n | 0 <= n < |items| :: items[n].key == key
  {
    assert AddedFor(before, after, index, items, key);
    OfKeyIndex(index, items, key);
  }

  lemma {:induction false} AddsOneMore<K(!new), V(!new)>(before: map<K, seq<Entry<V>>>, after: map<K, seq<Entry<V>>>,
                                         index: nat, items: seq<Keyed<K, V>>, item: Keyed<K, V>)
    requires Added(before, after, index, items)
    ensures Added(before, after[item.key := GetEntries(after, item.key) + [Entry(index, item.fact)]], index, items + [item])
  {
    var next := after[item.key := GetEntries(after, item.key) + [Entry(index, item.fact)]];
    forall key ensures AddedFor(before, next, index, items + [item], key) {
      assert AddedFor(before, after, index, items, key);
      hide AddedFor;
      AddsForKey(before, after, index, items, item, key);
    }
  }

  lemma {:induction false} AddsForKey<K(!new), V(!new)>(before: map<K, seq<Entry<V>>>, after: map<K, seq<Entry<V>>>,
                                         index: nat, items: seq<Keyed<K, V>>, item: Keyed<K, V>, key: K)
    requires AddedFor(before, after, index, items, key)
    ensures AddedFor(before, after[item.key := GetEntries(after, item.key) + [Entry(index, item.fact)]], index,
                     items + [item], key)
  {
    assert (items + [item])[..|items|] == items;
  }

  /** Push one release's facts onto their keys' lists; a second fact for one key is an
      error if `strict`. */
  method Push<K(==,!new), V(!new)>(before: map<K, seq<Entry<V>>>, index: nat, items: seq<Keyed<K, V>>, strict: bool)
    returns (after: Option<map<K, seq<Entry<V>>>>)
    requires AllBelow(before, index)
    requires forall key | key in before :: before[key] != []
    ensures after.None? <==> strict && !DistinctKeys(items)
    ensures after.Some? ==> Added(before, after.value, index, items)
  {
    var table := before;
    assert Added(before, table, index, items[..0]) by {
      forall key ensures AddedFor(before, table, index, items[..0], key) {
      }
    }
    for j := 0 to |items|
      invariant Added(before, table, index, items[..j])
      invariant strict ==> DistinctKeys(items[..j])
    {
      hide Added, AllBelow;
      var key := items[j].key;
      var entries := GetEntries(table, key);
      RepeatedKey(before, table, index, items[..j], key);
      if strict && entries != [] && entries[|entries| - 1].index == index {
        assert !DistinctKeys(items);
        return None;
      }
      AddsOneMore(before, table, index, items[..j], items[j]);
      assert items[..j + 1] == items[..j] + [items[j]];
      table := table[key := entries + [Entry(index, items[j].fact)]];
    }
    assert items[..|items|] == items;
    return Some(table);
  }

  lemma {:induction false} GroupsBelow<K(!new), V(!new)>(table: map<K, seq<Entry<V>>>,
                                         facts: seq<Entry<seq<Keyed<K, V>>>>, bound: nat)
    requires Groups(table, facts)
    requires forall i | 0 <= i < |facts| :: facts[i].index < bound
    ensures AllBelow(table, bound)
  {
    forall key | key in table
      ensures forall k | 0 <= k < |table[key]| :: table[key][k].index < bound
    {
      assert GetEntries(table, key) == EntriesOf(facts, key);
      EntriesBelow(facts, key, bound);
    }
  }

  lemma {:induction false} GroupsOneMore<K(!new), V(!new)>(before: map<K, seq<Entry<V>>>,
                                           after: map<K, seq<Entry<V>>>, facts: seq<Entry<seq<Keyed<K, V>>>>,
                                           fact: Entry<seq<Keyed<K, V>>>)
    requires Groups(before, facts) && Added(before, after, fact.index, fact.fact)
    ensures Groups(after, facts + [fact])
  {
    assert (facts + [fact])[..|facts|] == facts;
    forall key ensures GetEntries(after, key) == EntriesOf(facts + [fact], key) {
      assert AddedFor(before, after, fact.index, fact.fact, key);
    }
  }

  /** Group every release's facts by key. */
  method Gather<K(==,!new), V(!new)>(facts: seq<Entry<seq<Keyed<K, V>>>>, strict: bool)
    returns (table: Option<map<K, seq<Entry<V>>>>)
    requires Strict(facts)
    ensures table.None? <==> strict && exists i | 0 <= i < |facts| :: !DistinctKeys(facts[i].fact)
    ensures table.Some? ==> Groups(table.value, facts)
  {
    var grouped: map<K, seq<Entry<V>>> := map[];
    for i := 0 to |facts|
      invariant Groups(grouped, facts[..i])
      invariant strict ==> forall n | 0 <= n < i :: DistinctKeys(facts[n].fact)
    {
      GroupsBelow(grouped, facts[..i], facts[i].index);
      var next := Push(grouped, facts[i].index, facts[i].fact, strict);
      if next.None? {
        return None;
      }
      GroupsOneMore(grouped, next.value, facts[..i], facts[i]);
      assert facts[..i + 1] == facts[..i] + [facts[i]];
      grouped := next.value;
    }
    assert facts[..|facts|] == facts;
    return Some(grouped);
  }

  // ----- histories

  ghost predicate Below<T>(entries: seq<Entry<T>>, n: nat) {
    forall k | 0 <= k < |entries| :: entries[k].index < n
  }

  ghost predicate RunsBelow<T>(runs: seq<Run<T>>, n: nat) {
    forall k | 0 <= k < |runs| :: runs[k].first < n && runs[k].last < n
  }

  lemma {:induction false} RunsStayBelow<T>(entries: seq<Entry<T>>, n: nat)
    requires Below(entries, n)
    ensures RunsBelow(RunsOf(entries), n)
  {
    if entries != [] {
      RunsStayBelow(entries[..|entries| - 1], n);
    }
  }

  /** Runs of release indexes as ranges of releases. */
  function RangedOf<T>(runs: seq<Run<T>>, versions: seq<Version>): (ranged: seq<Ranged<T>>)
    requires RunsBelow(runs, |versions|)
    ensures |ranged| == |runs|
    ensures forall k | 0 <= k < |runs| ::
              ranged[k] == Ranged(Range(versions[runs[k].first], versions[runs[k].last]), runs[k].fact)
  {
    seq(|runs|, k requires 0 <= k < |runs| && RunsBelow(runs, |versions|) =>
          Ranged(Range(versions[runs[k].first], versions[runs[k].last]), runs[k].fact))
  }

  function RangesOf<T(==)>(entries: seq<Entry<T>>, versions: seq<Version>): seq<Ranged<T>>
    requires Below(entries, |versions|)
  {
    RunsStayBelow(entries, |versions|);
    RangedOf(RunsOf(entries), versions)
  }

  function Project<T, U>(entries: seq<Entry<T>>, value: T -> U): (projected: seq<Entry<U>>)
    ensures |projected| == |entries|
    ensures forall k | 0 <= k < |entries| :: projected[k] == Entry(entries[k].index, value(entries[k].fact))
  {
    seq(|entries|, k requires 0 <= k < |entries| => Entry(entries[k].index, value(entries[k].fact)))
  }

  /** Sorted, without duplicates: the profiles in `profiles`, in the derived order. */
  function Normalized(profiles: seq<Profile>): seq<Profile> {
    NormalizedFrom(profiles, 0)
  }

  function NormalizedFrom(profiles: seq<Profile>, k: nat): seq<Profile>
    requires k <= 12
    decreases 12 - k
  {
    if k == 12 then []
    else (if ProfileAt(k) in profiles then [ProfileAt(k)] else []) + NormalizedFrom(profiles, k + 1)
  }

  lemma {:induction false} NormalizedSorts(profiles: seq<Profile>, k: nat)
    requires k <= 12
    ensures forall profile :: profile in NormalizedFrom(profiles, k) <==> profile in profiles && Rank(profile) >= k
    ensures SortedUnique(NormalizedFrom(profiles, k))
    decreases 12 - k
  {
    if k < 12 {
      NormalizedSorts(profiles, k + 1);
      forall profile | Rank(profile) == k ensures profile == ProfileAt(k) {
        RankDistinguishes(profile, ProfileAt(k));
      }
      hide Rank, ProfileAt;
    }
  }

  function NameOf<D>(): Fact<D> -> string {
    (fact: Fact<D>) => fact.name
  }

  function SupportedBy<D>(): Fact<D> -> seq<Profile> {
    (fact: Fact<D>) => Normalized(fact.profiles)
  }

  function DefinedAs<D>(): Fact<D> -> D {
    (fact: Fact<D>) => fact.definition
  }

  function Documenting<D>(): Fact<D> -> seq<Keyed<Member, Domain>> {
    (fact: Fact<D>) => fact.domains
  }

  /** What merging the releases' facts of one command or event gives. */
  ghost predicate IsHistory<D(!new)>(history: History<D>, entries: seq<Entry<Fact<D>>>, versions: seq<Version>) {
    && Below(entries, |versions|)
    && history.names == RangesOf(Project(entries, NameOf()), versions)
    && history.availability == RangesOf(Project(entries, SupportedBy()), versions)
    && history.definitions == RangesOf(Project(entries, DefinedAs()), versions)
    && forall member ::
         MergedAs(history.domains, EntriesOf(Project(entries, Documenting()), member), member, versions)
  }

  /** A key's history in a table: none without facts. */
  ghost predicate MergedAs<K, T>(table: map<K, seq<Ranged<T>>>, entries: seq<Entry<T>>, key: K,
                                 versions: seq<Version>) {
    && (key in table <==> entries != [])
    && (key in table ==> Below(entries, |versions|) && table[key] == RangesOf(entries, versions))
  }

  lemma {:induction false} OfKeyBelow<K, V>(facts: seq<Entry<seq<Keyed<K, V>>>>, key: K, n: nat)
    requires Below(facts, n)
    ensures Below(EntriesOf(facts, key), n)
  {
    EntriesBelow(facts, key, n);
  }

  /** The ranges of every key's facts. */
  method RangeTable<K(==,!new), V(==,!new)>(facts: seq<Entry<seq<Keyed<K, V>>>>, versions: seq<Version>, strict: bool)
    returns (table: Option<map<K, seq<Ranged<V>>>>)
    requires Strict(facts) && Below(facts, |versions|)
    ensures table.None? <==> strict && exists i | 0 <= i < |facts| :: !DistinctKeys(facts[i].fact)
    ensures table.Some? ==> forall key :: MergedAs(table.value, EntriesOf(facts, key), key, versions)
  {
    var grouped := Gather(facts, strict);
    if grouped.None? {
      return None;
    }
    forall key | key in grouped.value ensures Below(grouped.value[key], |versions|) {
      assert GetEntries(grouped.value, key) == EntriesOf(facts, key);
      OfKeyBelow(facts, key, |versions|);
    }
    var ranges := map key | key in grouped.value :: RangesOf(grouped.value[key], versions);
    forall key ensures MergedAs(ranges, EntriesOf(facts, key), key, versions) {
      assert GetEntries(grouped.value, key) == EntriesOf(facts, key);
    }
    return Some(ranges);
  }

  method MergeHistory<D(==,!new)>(entries: seq<Entry<Fact<D>>>, versions: seq<Version>) returns (history: History<D>)
    requires Strict(entries) && Below(entries, |versions|)
    ensures IsHistory(history, entries, versions)
  {
    var domains := RangeTable(Project(entries, Documenting()), versions, false);
    history := History(
      RangesOf(Project(entries, NameOf()), versions),
      RangesOf(Project(entries, SupportedBy()), versions),
      RangesOf(Project(entries, DefinedAs()), versions),
      domains.value);
  }

  // ----- the catalog

  /** Stable sorting by release. */
  function SortByVersion(snapshots: seq<Snapshot>): (sorted: seq<Snapshot>)
    ensures |sorted| == |snapshots|
  {
    if snapshots == [] then [] else
    var last := |snapshots| - 1;
    Insert(SortByVersion(snapshots[..last]), snapshots[last])
  }

  /** After every snapshot of the same release or an earlier one. */
  function Insert(sorted: seq<Snapshot>, snapshot: Snapshot): (more: seq<Snapshot>)
    ensures |more| == |sorted| + 1
  {
    if sorted == [] then [snapshot]
    else
      var last := |sorted| - 1;
      if Before(snapshot.source.version, sorted[last].source.version)
      then Insert(sorted[..last], snapshot) + [sorted[last]]
      else sorted + [snapshot]
  }

  function Sources(snapshots: seq<Snapshot>): (sources: seq<ReleaseSource>)
    ensures |sources| == |snapshots|
    ensures forall i | 0 <= i < |snapshots| :: sources[i] == snapshots[i].source
  {
    seq(|snapshots|, i requires 0 <= i < |snapshots| => snapshots[i].source)
  }

  /** Each snapshot's facts, by its position. */
  function FactsOf<T>(snapshots: seq<Snapshot>, facts: Snapshot -> T): (entries: seq<Entry<T>>)
    ensures |entries| == |snapshots|
    ensures forall i | 0 <= i < |snapshots| :: entries[i] == Entry(i, facts(snapshots[i]))
  {
    seq(|snapshots|, i requires 0 <= i < |snapshots| => Entry(i, facts(snapshots[i])))
  }

  const BINARIES := (snapshot: Snapshot) => snapshot.binaries
  const COMMANDS := (snapshot: Snapshot) => snapshot.commands
  const EVENTS := (snapshot: Snapshot) => snapshot.events
  const STRUCT_DOMAINS := (snapshot: Snapshot) => snapshot.structDomains
  const STATUSES := (snapshot: Snapshot) => snapshot.statuses

  /** The history of a command or event with facts, and none of one without. */
  ghost predicate HistoryAs<K, D(!new)>(table: map<K, History<D>>, entries: seq<Entry<Fact<D>>>, key: K,
                                 versions: seq<Version>) {
    && (key in table <==> entries != [])
    && (key in table ==> IsHistory(table[key], entries, versions))
  }

  /** What merging the snapshots, in release order, gives before validation. */
  ghost predicate IsCatalog(catalog: CatalogData, platform: Platform, snapshots: seq<Snapshot>) {
    var versions := Versions(Sources(snapshots));
    && catalog.platform == platform
    && catalog.releases == Sources(snapshots)
    && (forall key :: MergedAs(catalog.binaries, EntriesOf(FactsOf(snapshots, BINARIES), key), key, versions))
    && (forall key :: HistoryAs(catalog.commands, EntriesOf(FactsOf(snapshots, COMMANDS), key), key, versions))
    && (forall key :: HistoryAs(catalog.events, EntriesOf(FactsOf(snapshots, EVENTS), key), key, versions))
    && (forall key :: MergedAs(catalog.structDomains, EntriesOf(FactsOf(snapshots, STRUCT_DOMAINS), key), key, versions))
    && (forall key :: MergedAs(catalog.statuses, EntriesOf(FactsOf(snapshots, STATUSES), key), key, versions))
  }

  /** No snapshot lists a binary, command, event, or structure field twice. */
  predicate Unrepeated(snapshot: Snapshot) {
    DistinctKeys(snapshot.binaries) && DistinctKeys(snapshot.commands) && DistinctKeys(snapshot.events)
    && DistinctKeys(snapshot.structDomains)
  }

  predicate AllUnrepeated(snapshots: seq<Snapshot>) {
    forall i | 0 <= i < |snapshots| :: Unrepeated(snapshots[i])
  }

  lemma {:induction false} OfKeyOnce<K, V>(index: nat, items: seq<Keyed<K, V>>, key: K)
    requires DistinctKeys(items)
    ensures |OfKey(index, items, key)| <= 1
  {
    if items != [] {
      var last := |items| - 1;
      OfKeyOnce(index, items[..last], key);
      if items[last].key == key {
        OfKeyIndex(index, items[..last], key);
      }
    }
  }

  /** Releases listing each key once give strictly ascending entries. */
  lemma {:induction false} EntriesStrict<K, V>(facts: seq<Entry<seq<Keyed<K, V>>>>, key: K)
    requires Strict(facts) && forall i | 0 <= i < |facts| :: DistinctKeys(facts[i].fact)
    ensures Strict(EntriesOf(facts, key))
  {
    if facts != [] {
      var last := |facts| - 1;
      EntriesStrict(facts[..last], key);
      EntriesBelow(facts[..last], key, facts[last].index);
      OfKeyOnce(facts[last].index, facts[last].fact, key);
      OfKeyIndex(facts[last].index, facts[last].fact, key);
    }
  }

  method MergeHistories<K(==,!new), D(==,!new)>(facts: seq<Entry<seq<Keyed<K, Fact<D>>>>>, versions: seq<Version>)
    returns (table: Option<map<K, History<D>>>)
    requires Strict(facts) && Below(facts, |versions|)
    ensures table.None? <==> exists i | 0 <= i < |facts| :: !DistinctKeys(facts[i].fact)
    ensures table.Some? ==> forall key :: HistoryAs(table.value, EntriesOf(facts, key), key, versions)
  {
    var grouped := Gather(facts, true);
    if grouped.None? {
      return None;
    }
    var histories: map<K, History<D>> := map[];
    var rest := grouped.value.Keys;
    while rest != {}
      invariant rest <= grouped.value.Keys
      invariant histories.Keys == grouped.value.Keys - rest
      invariant forall key | key in histories :: IsHistory(histories[key], grouped.value[key], versions)
    {
      var key :| key in rest;
      assert GetEntries(grouped.value, key) == EntriesOf(facts, key);
      EntriesStrict(facts, key);
      OfKeyBelow(facts, key, |versions|);
      hide IsHistory;
      var history := MergeHistory(grouped.value[key], versions);
      histories := histories[key := history];
      rest := rest - {key};
    }
    forall key ensures HistoryAs(histories, EntriesOf(facts, key), key, versions) {
      assert GetEntries(grouped.value, key) == EntriesOf(facts, key);
    }
    return Some(histories);
  }

  lemma {:induction false} FactsOrdered<T>(snapshots: seq<Snapshot>, facts: Snapshot -> T)
    ensures Strict(FactsOf(snapshots, facts)) && Below(FactsOf(snapshots, facts), |snapshots|)
  {
  }

  method MergeSorted(platform: Platform, snapshots: seq<Snapshot>) returns (catalog: Option<CatalogData>)
    ensures catalog.Some? <==> AllUnrepeated(snapshots)
    ensures catalog.Some? ==> IsCatalog(catalog.value, platform, snapshots)
  {
    hide Strict, Below, MergedAs, HistoryAs, DistinctKeys, EntriesOf;
    FactsOrdered(snapshots, BINARIES);
    FactsOrdered(snapshots, COMMANDS);
    FactsOrdered(snapshots, EVENTS);
    FactsOrdered(snapshots, STRUCT_DOMAINS);
    FactsOrdered(snapshots, STATUSES);
    var versions := Versions(Sources(snapshots));
    var binaries := RangeTable(FactsOf(snapshots, BINARIES), versions, true);
    var commands := MergeHistories(FactsOf(snapshots, COMMANDS), versions);
    var events := MergeHistories(FactsOf(snapshots, EVENTS), versions);
    var structDomains := RangeTable(FactsOf(snapshots, STRUCT_DOMAINS), versions, true);
    var statuses := RangeTable(FactsOf(snapshots, STATUSES), versions, false);
    if binaries.None? || commands.None? || events.None? || structDomains.None? {
      ghost var i :| 0 <= i < |snapshots| && !(
        && DistinctKeys(FactsOf(snapshots, BINARIES)[i].fact) && DistinctKeys(FactsOf(snapshots, COMMANDS)[i].fact)
        && DistinctKeys(FactsOf(snapshots, EVENTS)[i].fact) && DistinctKeys(FactsOf(snapshots, STRUCT_DOMAINS)[i].fact));
      assert !Unrepeated(snapshots[i]);
      return None;
    }
    catalog := Some(CatalogData(platform, Sources(snapshots), binaries.value, commands.value, events.value,
                                structDomains.value, statuses.value));
  }
}

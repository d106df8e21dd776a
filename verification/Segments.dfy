/** Segments: the common refinement of an entry's histories, which the macros
    declare one by one (crates/stm32wb-catalog/src/history.rs and view.rs). */
module Segments {
  import opened Options
  import opened Release
  import opened Runs
  import opened Catalog
  import opened Merge
  import opened MergeFaithful
  import opened MergeCanonical

  // ----- the facts of an entry in one release

  datatype Question = ParamsLayout | ReturnsLayout | PayloadLayout | CommandExclusion | EventExclusion

  /** What a question about an entry is answered by, from its name and the release. */
  type Annotations = (string, Question, Version) -> Option<nat>

  /** Which of a command's facts hold in a release: the positions of its availability,
      name and definition, and the annotations chosen for it. */
  datatype CommandFacts = CommandFacts(
    key: CommandKey, availability: nat, name: Option<nat>, definition: nat,
    params: Option<nat>, results: Option<nat>, excluded: Option<nat>)

  datatype EventFacts = EventFacts(
    key: EventKey, availability: nat, name: Option<nat>, definition: nat, payload: Option<nat>, excluded: Option<nat>)

  predicate Carries(names: seq<Ranged<string>>, name: string) {
    exists i | 0 <= i < |names| :: names[i].fact == name
  }

  /** The name in a release, empty if there is none. */
  function NameIn(names: seq<Ranged<string>>, version: Version): string {
    match FactIn(names, version)
    case None => ""
    case Some(name) => name
  }

  function ActiveCommand(annotations: Annotations, key: CommandKey, history: History<CommandDefinition>,
                         version: Version): Option<CommandFacts>
  {
    var availability, definition := IndexIn(history.availability, version), IndexIn(history.definitions, version);
    if availability.None? || definition.None? then None else
    var name := NameIn(history.names, version);
    Some(CommandFacts(
      key, availability.value, IndexIn(history.names, version), definition.value,
      annotations(name, ParamsLayout, version),
      if history.definitions[definition.value].fact.results.Some? then annotations(name, ReturnsLayout, version) else None,
      annotations(name, CommandExclusion, version)))
  }

  function ActiveEvent(annotations: Annotations, key: EventKey, history: History<EventDefinition>,
                       version: Version): Option<EventFacts>
  {
    var availability, definition := IndexIn(history.availability, version), IndexIn(history.definitions, version);
    if availability.None? || definition.None? then None else
    var name := NameIn(history.names, version);
    Some(EventFacts(
      key, availability.value, IndexIn(history.names, version), definition.value,
      annotations(name, PayloadLayout, version), annotations(name, EventExclusion, version)))
  }

  /** The commands that ever carried `name` and exist in a release. */
  function CommandsAt(catalog: CatalogData, annotations: Annotations, name: string,
                      version: Version): set<CommandFacts> {
    set key | key in catalog.commands && Carries(catalog.commands[key].names, name)
              && ActiveCommand(annotations, key, catalog.commands[key], version).Some? ::
      ActiveCommand(annotations, key, catalog.commands[key], version).value
  }

  function EventsAt(catalog: CatalogData, annotations: Annotations, name: string, version: Version): set<EventFacts> {
    set key | key in catalog.events && Carries(catalog.events[key].names, name)
              && ActiveEvent(annotations, key, catalog.events[key], version).Some? ::
      ActiveEvent(annotations, key, catalog.events[key], version).value
  }

  // ----- coalescing

  ghost function Only<T>(s: set<T>): (x: T)
    requires s != {}
    ensures x in s
  {
    var x :| x in s; x
  }

  lemma {:induction false} OnlyOne<T>(s: set<T>, x: T)
    requires |s| == 1 && x in s
    ensures Only(s) == x
  {
    assert |s - {x}| == 0;
    assert Only(s) !in s - {x};
  }

  /** The facts of the first `n` releases having the entry. */
  ghost function Active<T>(versions: seq<Version>, at: Version -> set<T>, n: nat): (entries: seq<Entry<T>>)
    requires n <= |versions|
    ensures Below(entries, n) && Strict(entries)
  {
    if n == 0 then [] else
    var before := Active(versions, at, n - 1);
    if at(versions[n - 1]) == {} then before else before + [Entry(n - 1, Only(at(versions[n - 1])))]
  }

  lemma {:induction false} ActiveAt<T>(versions: seq<Version>, at: Version -> set<T>, n: nat, i: nat)
    requires i < n <= |versions|
    ensures FactAt(Active(versions, at, n), i) == if at(versions[i]) == {} then None else Some(Only(at(versions[i])))
  {
    var before := Active(versions, at, n - 1);
    if at(versions[n - 1]) != {} {
      FactAppend(before, Entry(n - 1, Only(at(versions[n - 1]))), i);
    }
    if i == n - 1 {
      FactBeyond(before, i);
    } else {
      ActiveAt(versions, at, n - 1, i);
    }
  }

  /** The segments of the first `n` releases. */
  ghost function SegmentsOf<T>(versions: seq<Version>, at: Version -> set<T>, n: nat): seq<Ranged<T>>
    requires n <= |versions|
  {
    RangesOf(Active(versions, at, n), versions)
  }

  lemma {:induction false} NoneActive<T>(versions: seq<Version>, at: Version -> set<T>, n: nat)
    requires n <= |versions|
    ensures Active(versions, at, n) == [] <==> forall i | 0 <= i < n :: at(versions[i]) == {}
  {
    if n > 0 {
      NoneActive(versions, at, n - 1);
    }
  }

  ghost predicate Started<T>(before: seq<Ranged<T>>, after: seq<Ranged<T>>, version: Version, fact: T) {
    after == before + [Ranged(Range(version, version), fact)]
  }

  ghost predicate Extended<T>(before: seq<Ranged<T>>, after: seq<Ranged<T>>, version: Version) {
    before != [] &&
    var last := |before| - 1;
    after == before[..last] + [Ranged(Range(before[last].releases.first, version), before[last].fact)]
  }

  lemma {:induction false} RangedExtend<T>(runs: seq<Run<T>>, entry: Entry<T>, versions: seq<Version>)
    requires runs != [] && RunsBelow(runs, |versions|) && entry.index < |versions|
    requires RunsBelow(runs[..|runs| - 1] + [Run(runs[|runs| - 1].first, entry.index, entry.fact)], |versions|)
    requires runs[|runs| - 1].fact == entry.fact
    ensures Extended(RangedOf(runs, versions),
                     RangedOf(runs[..|runs| - 1] + [Run(runs[|runs| - 1].first, entry.index, entry.fact)], versions),
                     versions[entry.index])
  {
  }

  lemma {:induction false} RangedStart<T>(runs: seq<Run<T>>, entry: Entry<T>, versions: seq<Version>)
    requires RunsBelow(runs, |versions|) && entry.index < |versions|
    requires RunsBelow(runs + [Run(entry.index, entry.index, entry.fact)], |versions|)
    ensures Started(RangedOf(runs, versions), RangedOf(runs + [Run(entry.index, entry.index, entry.fact)], versions),
                    versions[entry.index], entry.fact)
  {
  }

  lemma {:induction false} RangesGrow<T>(entries: seq<Entry<T>>, entry: Entry<T>, versions: seq<Version>)
    requires Below(entries, |versions|) && entry.index < |versions|
    ensures var before, after := RangesOf(entries, versions), RangesOf(entries + [entry], versions);
            var runs := RunsOf(entries);
            var last := |runs| - 1;
            if runs != [] && runs[last].last + 1 == entry.index && runs[last].fact == entry.fact
            then Extended(before, after, versions[entry.index])
            else Started(before, after, versions[entry.index], entry.fact)
  {
    RunsStayBelow(entries, |versions|);
    RunsStayBelow(entries + [entry], |versions|);
    RunsGrow(entries, entry);
    var runs := RunsOf(entries);
    var last := |runs| - 1;
    hide RunsOf, Below, Extended, Started, RunsBelow;
    if runs != [] && runs[last].last + 1 == entry.index && runs[last].fact == entry.fact {
      RangedExtend(runs, entry, versions);
    } else {
      RangedStart(runs, entry, versions);
    }
  }

  /** One more release with the entry extends the last segment or starts another. */
  lemma {:induction false} OneMoreRelease<T>(versions: seq<Version>, at: Version -> set<T>, n: nat, fact: T)
    requires n < |versions| && at(versions[n]) != {} && fact == Only(at(versions[n]))
    ensures var before, after := SegmentsOf(versions, at, n), SegmentsOf(versions, at, n + 1);
            if n > 0 && at(versions[n - 1]) != {} && before != [] && before[|before| - 1].fact == fact
            then Extended(before, after, versions[n])
            else Started(before, after, versions[n], fact)
  {
    var entries := Active(versions, at, n);
    assert Active(versions, at, n + 1) == entries + [Entry(n, fact)];
    LastActive(versions, at, n);
    RunsCanonical(entries);
    RunsStayBelow(entries, |versions|);
    RangesGrow(entries, Entry(n, fact), versions);
    hide Canonical, Strict, Active, RunsOf, Extended, Started;
  }

  lemma {:induction false} LastActive<T>(versions: seq<Version>, at: Version -> set<T>, n: nat)
    requires n <= |versions|
    ensures var entries := Active(versions, at, n);
            entries != [] && entries[|entries| - 1].index + 1 == n <==> n > 0 && at(versions[n - 1]) != {}
  {
  }

  method FindSegments<T(==)>(versions: seq<Version>, at: Version -> set<T>) returns (segments: Option<seq<Ranged<T>>>)
    ensures segments.None? <==>
            (exists version | version in versions :: |at(version)| > 1) || (forall version | version in versions :: at(version) == {})
    ensures segments.Some? ==> segments.value == SegmentsOf(versions, at, |versions|)
  {
    var found: seq<Ranged<T>> := [];
    var adjacent := false;
    for n := 0 to |versions|
      invariant found == SegmentsOf(versions, at, n)
      invariant adjacent <==> n > 0 && at(versions[n - 1]) != {}
      invariant forall version | version in versions[..n] :: |at(version)| <= 1
    {
      hide SegmentsOf;
      assert versions[n] in versions;
      assert versions[..n + 1] == versions[..n] + [versions[n]];
      var active := at(versions[n]);
      if |active| > 1 {
        return None;
      }
      if active == {} {
        Unchanged(versions, at, n);
        adjacent := false;
      } else {
        var fact :| fact in active;
        OnlyOne(active, fact);
        OneMoreRelease(versions, at, n, fact);
        var continuing := adjacent;
        adjacent := true;
        var last := |found| - 1;
        if found != [] && continuing && found[last].fact == fact {
          found := found[..last] + [Ranged(Range(found[last].releases.first, versions[n]), fact)];
        } else {
          found := found + [Ranged(Range(versions[n], versions[n]), fact)];
        }
      }
    }
    assert versions[..|versions|] == versions;
    NoneActive(versions, at, |versions|);
    segments := if found == [] then None else Some(found);
  }

  lemma {:induction false} Unchanged<T>(versions: seq<Version>, at: Version -> set<T>, n: nat)
    requires n < |versions| && at(versions[n]) == {}
    ensures SegmentsOf(versions, at, n + 1) == SegmentsOf(versions, at, n)
  {
  }

  // ----- what segments are

  /** The common refinement of an entry's histories: maximal ranges giving every release
      the facts the entry has there, and covering no release without it. */
  ghost predicate Refinement<T>(segments: seq<Ranged<T>>, versions: seq<Version>, at: Version -> set<T>) {
    && Maximal(segments, versions)
    && forall version | version in versions :: ShowsOnly(segments, version, at(version))
  }

  ghost predicate ShowsOnly<T>(segments: seq<Ranged<T>>, version: Version, active: set<T>) {
    match FactIn(segments, version)
    case None => active == {}
    case Some(fact) => active == {fact}
  }

  lemma {:induction false} SegmentsRefine<T>(versions: seq<Version>, at: Version -> set<T>)
    requires Ascending(versions) && forall version | version in versions :: |at(version)| <= 1
    ensures Refinement(SegmentsOf(versions, at, |versions|), versions, at)
  {
    var segments := SegmentsOf(versions, at, |versions|);
    RangesMaximal(Active(versions, at, |versions|), versions);
    forall version | version in versions ensures ShowsOnly(segments, version, at(version)) {
      var i :| 0 <= i < |versions| && versions[i] == version;
      RangesLookUp(Active(versions, at, |versions|), versions, i);
      ActiveAt(versions, at, |versions|, i);
      if at(version) != {} {
        assert at(version) == {Only(at(version))} by {
          forall x | x in at(version) ensures x == Only(at(version)) {
            OnlyOne(at(version), x);
          }
        }
      }
    }
  }

  /** There is only one refinement. */
  lemma {:induction false} RefinementUnique<T>(a: seq<Ranged<T>>, b: seq<Ranged<T>>, versions: seq<Version>,
      at: Version -> set<T>)
    requires Ascending(versions) && Refinement(a, versions, at) && Refinement(b, versions, at)
    ensures a == b
  {
    forall version | version in versions ensures FactIn(a, version) == FactIn(b, version) {
      assert ShowsOnly(a, version, at(version)) && ShowsOnly(b, version, at(version));
      if at(version) != {} {
        var x :| x in at(version);
      }
    }
    MaximalUnique(a, b, versions);
  }

  method CommandSegments(catalog: CatalogData, annotations: Annotations, name: string)
    returns (segments: Option<seq<Ranged<CommandFacts>>>)
    requires Ascending(Versions(catalog.releases))
    ensures segments.None? <==>
            || (exists version | version in Versions(catalog.releases) :: |CommandsAt(catalog, annotations, name, version)| > 1)
            || (forall version | version in Versions(catalog.releases) :: CommandsAt(catalog, annotations, name, version) == {})
    ensures segments.Some? ==>
              Refinement(segments.value, Versions(catalog.releases), version => CommandsAt(catalog, annotations, name, version))
  {
    hide CommandsAt, Refinement, SegmentsOf;
    var at := version => CommandsAt(catalog, annotations, name, version);
    segments := FindSegments(Versions(catalog.releases), at);
    if segments.Some? {
      SegmentsRefine(Versions(catalog.releases), at);
    }
  }

  method EventSegments(catalog: CatalogData, annotations: Annotations, name: string)
    returns (segments: Option<seq<Ranged<EventFacts>>>)
    requires Ascending(Versions(catalog.releases))
    ensures segments.None? <==>
            || (exists version | version in Versions(catalog.releases) :: |EventsAt(catalog, annotations, name, version)| > 1)
            || (forall version | version in Versions(catalog.releases) :: EventsAt(catalog, annotations, name, version) == {})
    ensures segments.Some? ==>
              Refinement(segments.value, Versions(catalog.releases), version => EventsAt(catalog, annotations, name, version))
  {
    hide EventsAt, Refinement, SegmentsOf;
    var at := version => EventsAt(catalog, annotations, name, version);
    segments := FindSegments(Versions(catalog.releases), at);
    if segments.Some? {
      SegmentsRefine(Versions(catalog.releases), at);
    }
  }

  // ----- what a segment says of each of its releases

  /** A position is that of the first range holding in a release. */
  ghost predicate FirstHolding<T>(ranged: seq<Ranged<T>>, version: Version, position: nat) {
    && position < |ranged| && ranged[position].releases.Contains(version)
    && forall i | 0 <= i < position :: !ranged[i].releases.Contains(version)
  }

  ghost predicate Holding<T>(ranged: seq<Ranged<T>>, version: Version) {
    exists i | 0 <= i < |ranged| :: ranged[i].releases.Contains(version)
  }

  /** A command's facts in a release: where its availability, name and definition are found,
      and what each question about the name it has there is answered. */
  ghost predicate AnswersCommand(annotations: Annotations, history: History<CommandDefinition>, version: Version,
                                 facts: CommandFacts) {
    var name := match FactIn(history.names, version) case None => "" case Some(name) => name;
    && FirstHolding(history.availability, version, facts.availability)
    && FirstHolding(history.definitions, version, facts.definition)
    && (match facts.name
        case None => !Holding(history.names, version)
        case Some(position) => FirstHolding(history.names, version, position) && history.names[position].fact == name)
    && facts.params == annotations(name, ParamsLayout, version)
    && facts.results == (if history.definitions[facts.definition].fact.results.Some?
                         then annotations(name, ReturnsLayout, version) else None)
    && facts.excluded == annotations(name, CommandExclusion, version)
  }

  ghost predicate AnswersEvent(annotations: Annotations, history: History<EventDefinition>, version: Version,
                               facts: EventFacts) {
    var name := match FactIn(history.names, version) case None => "" case Some(name) => name;
    && FirstHolding(history.availability, version, facts.availability)
    && FirstHolding(history.definitions, version, facts.definition)
    && (match facts.name
        case None => !Holding(history.names, version)
        case Some(position) => FirstHolding(history.names, version, position) && history.names[position].fact == name)
    && facts.payload == annotations(name, PayloadLayout, version)
    && facts.excluded == annotations(name, EventExclusion, version)
  }

  lemma {:induction false} CommandAnswered(annotations: Annotations, key: CommandKey,
                                           history: History<CommandDefinition>, version: Version)
    ensures var active := ActiveCommand(annotations, key, history, version);
            && (active.Some? <==> Holding(history.availability, version) && Holding(history.definitions, version))
            && (active.Some? ==> active.value.key == key && AnswersCommand(annotations, history, version, active.value))
  {
  }

  lemma {:induction false} EventAnswered(annotations: Annotations, key: EventKey, history: History<EventDefinition>,
                                         version: Version)
    ensures var active := ActiveEvent(annotations, key, history, version);
            && (active.Some? <==> Holding(history.availability, version) && Holding(history.definitions, version))
            && (active.Some? ==> active.value.key == key && AnswersEvent(annotations, history, version, active.value))
  {
  }

  /** For every release: the segment holding in it says what the catalog and the annotations
      say of a command that ever had the name, available and defined there; and there is such
      a segment exactly if there is such a command. */
  lemma {:induction false} CommandSegmentsAnswer(catalog: CatalogData, annotations: Annotations, name: string,
                                                 segments: seq<Ranged<CommandFacts>>, version: Version)
    requires Refinement(segments, Versions(catalog.releases), v => CommandsAt(catalog, annotations, name, v))
    requires version in Versions(catalog.releases)
    ensures forall k | 0 <= k < |segments| && segments[k].releases.Contains(version) ::
              var facts := segments[k].fact;
              && facts.key in catalog.commands
              && (exists i | 0 <= i < |catalog.commands[facts.key].names| :: catalog.commands[facts.key].names[i].fact == name)
              && AnswersCommand(annotations, catalog.commands[facts.key], version, facts)
    ensures forall key, i | key in catalog.commands && 0 <= i < |catalog.commands[key].names| && catalog.commands[key].names[i].fact == name
                            && Holding(catalog.commands[key].availability, version)
                            && Holding(catalog.commands[key].definitions, version) ::
              exists k | 0 <= k < |segments| :: segments[k].releases.Contains(version) && segments[k].fact.key == key
  {
    var at := v => CommandsAt(catalog, annotations, name, v);
    assert ShowsOnly(segments, version, at(version));
    hide Refinement, AnswersCommand, ActiveCommand, Holding;
    forall k | 0 <= k < |segments| && segments[k].releases.Contains(version)
      ensures segments[k].fact in CommandsAt(catalog, annotations, name, version)
    {
      HeldOnce(segments, version, at, catalog.releases, k);
    }
    forall key | key in catalog.commands { CommandAnswered(annotations, key, catalog.commands[key], version); }
    forall key, i | key in catalog.commands && 0 <= i < |catalog.commands[key].names| && catalog.commands[key].names[i].fact == name
                    && Holding(catalog.commands[key].availability, version)
                    && Holding(catalog.commands[key].definitions, version)
      ensures exists k | 0 <= k < |segments| :: segments[k].releases.Contains(version) && segments[k].fact.key == key
    {
      var facts := ActiveCommand(annotations, key, catalog.commands[key], version).value;
      assert facts in CommandsAt(catalog, annotations, name, version);
      var k := IndexIn(segments, version).value;
      assert segments[k].fact == facts;
    }
  }

  lemma {:induction false} EventSegmentsAnswer(catalog: CatalogData, annotations: Annotations, name: string,
                                               segments: seq<Ranged<EventFacts>>, version: Version)
    requires Refinement(segments, Versions(catalog.releases), v => EventsAt(catalog, annotations, name, v))
    requires version in Versions(catalog.releases)
    ensures forall k | 0 <= k < |segments| && segments[k].releases.Contains(version) ::
              var facts := segments[k].fact;
              && facts.key in catalog.events
              && (exists i | 0 <= i < |catalog.events[facts.key].names| :: catalog.events[facts.key].names[i].fact == name)
              && AnswersEvent(annotations, catalog.events[facts.key], version, facts)
    ensures forall key, i | key in catalog.events && 0 <= i < |catalog.events[key].names| && catalog.events[key].names[i].fact == name
                            && Holding(catalog.events[key].availability, version)
                            && Holding(catalog.events[key].definitions, version) ::
              exists k | 0 <= k < |segments| :: segments[k].releases.Contains(version) && segments[k].fact.key == key
  {
    var at := v => EventsAt(catalog, annotations, name, v);
    assert ShowsOnly(segments, version, at(version));
    hide Refinement, AnswersEvent, ActiveEvent, Holding;
    forall k | 0 <= k < |segments| && segments[k].releases.Contains(version)
      ensures segments[k].fact in EventsAt(catalog, annotations, name, version)
    {
      HeldOnce(segments, version, at, catalog.releases, k);
    }
    forall key | key in catalog.events { EventAnswered(annotations, key, catalog.events[key], version); }
    forall key, i | key in catalog.events && 0 <= i < |catalog.events[key].names| && catalog.events[key].names[i].fact == name
                    && Holding(catalog.events[key].availability, version)
                    && Holding(catalog.events[key].definitions, version)
      ensures exists k | 0 <= k < |segments| :: segments[k].releases.Contains(version) && segments[k].fact.key == key
    {
      var facts := ActiveEvent(annotations, key, catalog.events[key], version).value;
      assert facts in EventsAt(catalog, annotations, name, version);
      var k := IndexIn(segments, version).value;
      assert segments[k].fact == facts;
    }
  }

  lemma {:induction false} HeldOnce<T>(segments: seq<Ranged<T>>, version: Version, at: Version -> set<T>,
                                       releases: seq<ReleaseSource>, k: nat)
    requires Refinement(segments, Versions(releases), at) && version in Versions(releases)
    requires k < |segments| && segments[k].releases.Contains(version)
    ensures segments[k].fact in at(version)
  {
    assert ShowsOnly(segments, version, at(version));
    assert IndexIn(segments, version).Some?;
  }

  // ----- neighbouring segments differ in value, not only in identity

  /** In maximal ranges, the same fact in consecutive releases is the same range. */
  lemma {:induction false} SameIndex<T>(ranged: seq<Ranged<T>>, versions: seq<Version>, i: nat)
    requires Ascending(versions) && Maximal(ranged, versions) && i + 1 < |versions|
    requires FactIn(ranged, versions[i]) == FactIn(ranged, versions[i + 1])
    ensures IndexIn(ranged, versions[i]) == IndexIn(ranged, versions[i + 1])
  {
    if FactIn(ranged, versions[i]).Some? {
      var a, b := IndexIn(ranged, versions[i]).value, IndexIn(ranged, versions[i + 1]).value;
      if a < b {
        NothingBetween(ranged, versions, i, a, b);
        WouldExtend(ranged, versions, a);
      } else if b < a {
        Backwards(ranged, versions, i, a, b);
      }
    }
  }

  lemma {:induction false} WouldExtend<T>(ranged: seq<Ranged<T>>, versions: seq<Version>, a: nat)
    requires Maximal(ranged, versions) && a + 1 < |ranged|
    requires Next(versions, ranged[a].releases.last, ranged[a + 1].releases.first)
    ensures ranged[a].fact != ranged[a + 1].fact
  {
    assert !Extends(ranged, versions, a + 1);
  }

  lemma {:induction false} Backwards<T>(ranged: seq<Ranged<T>>, versions: seq<Version>, i: nat, a: nat, b: nat)
    requires Ascending(versions) && Maximal(ranged, versions) && i + 1 < |versions| && b < a < |ranged|
    requires ranged[a].releases.Contains(versions[i])
    ensures !ranged[b].releases.Contains(versions[i + 1])
  {
    assert Before(ranged[b].releases.last, ranged[a].releases.first);
    assert Before(versions[i], versions[i + 1]);
  }

  lemma {:induction false} NothingBetween<T>(ranged: seq<Ranged<T>>, versions: seq<Version>, i: nat, a: nat, b: nat)
    requires Ascending(versions) && Maximal(ranged, versions) && i + 1 < |versions| && a < b < |ranged|
    requires ranged[a].releases.Contains(versions[i]) && ranged[b].releases.Contains(versions[i + 1])
    ensures b == a + 1 && Next(versions, ranged[a].releases.last, ranged[b].releases.first)
  {
    var runs := RunsIn(ranged, versions);
    MaximalIsCanonical(ranged, versions);
    assert runs[a].last < runs[b].first;
    OrderByIndex(versions, i, runs[a].last);
    OrderByIndex(versions, runs[b].first, i + 1);
    if b > a + 1 {
      SomethingBetween(runs, a, b);
    }
  }

  lemma {:induction false} SomethingBetween<T>(runs: seq<Run<T>>, a: nat, b: nat)
    requires Canonical(runs) && a + 1 < b < |runs|
    ensures runs[a].last + 1 < runs[b].first
  {
    assert runs[a].last < runs[a + 1].first <= runs[a + 1].last < runs[b].first;
  }

  /** The values a command has in a release. */
  datatype CommandValues = CommandValues(
    name: string, profiles: Option<seq<Profile>>, definition: Option<CommandDefinition>,
    params: Option<nat>, results: Option<nat>, excluded: Option<nat>)

  function ValuesIn(history: History<CommandDefinition>, facts: CommandFacts, version: Version): CommandValues {
    CommandValues(NameIn(history.names, version), FactIn(history.availability, version), FactIn(history.definitions, version),
                  facts.params, facts.results, facts.excluded)
  }

  predicate AlwaysNamed<D>(history: History<D>) {
    forall k | 0 <= k < |history.names| :: history.names[k].fact != ""
  }

  lemma {:induction false} SameValuesSameFacts(annotations: Annotations, key: CommandKey,
      history: History<CommandDefinition>, versions: seq<Version>, i: nat)
    requires Ascending(versions) && i + 1 < |versions|
    requires Maximal(history.names, versions) && Maximal(history.availability, versions) && Maximal(history.definitions, versions)
    requires AlwaysNamed(history)
    requires var a := ActiveCommand(annotations, key, history, versions[i]);
             var b := ActiveCommand(annotations, key, history, versions[i + 1]);
             a.Some? && b.Some? && ValuesIn(history, a.value, versions[i]) == ValuesIn(history, b.value, versions[i + 1])
    ensures ActiveCommand(annotations, key, history, versions[i]) == ActiveCommand(annotations, key, history, versions[i + 1])
  {
    hide Maximal;
    SameIndex(history.availability, versions, i);
    SameIndex(history.definitions, versions, i);
    SameIndex(history.names, versions, i);
  }

  /** In a merged catalog, segments of consecutive releases differ in the command, its name,
      its profiles, its definition, or its annotations. */
  lemma {:induction false} NeighboursDiffer(catalog: CatalogData, annotations: Annotations, name: string,
                                            segments: seq<Ranged<CommandFacts>>, k: nat, i: nat)
    requires var versions := Versions(catalog.releases);
             && Ascending(versions) && AllMaximal(catalog)
             && Refinement(segments, versions, version => CommandsAt(catalog, annotations, name, version))
             && 0 < k < |segments| && i + 1 < |versions|
             && versions[i] == segments[k - 1].releases.last && versions[i + 1] == segments[k].releases.first
    requires forall key | key in catalog.commands :: AlwaysNamed(catalog.commands[key])
    ensures var a, b := segments[k - 1].fact, segments[k].fact;
            && a.key in catalog.commands && b.key in catalog.commands
            && (a.key != b.key
                || ValuesIn(catalog.commands[a.key], a, segments[k - 1].releases.last)
                   != ValuesIn(catalog.commands[b.key], b, segments[k].releases.first))
  {
    hide Refinement, CommandsAt, Maximal, ActiveCommand, ValuesIn, AlwaysNamed, Ascending;
    var versions := Versions(catalog.releases);
    var at := version => CommandsAt(catalog, annotations, name, version);
    var a, b := segments[k - 1].fact, segments[k].fact;
    EndsOf(segments, versions, at, k);
    SegmentFact(segments, versions, at, k - 1, i);
    SegmentFact(segments, versions, at, k, i + 1);
    ActiveOf(catalog, annotations, name, versions[i], a);
    ActiveOf(catalog, annotations, name, versions[i + 1], b);
    FactsDiffer(segments, versions, at, k, i);
    if a.key == b.key {
      assert MaximalHistory(catalog.commands[a.key], versions);
      hide AllMaximal;
      if ValuesIn(catalog.commands[a.key], a, versions[i]) == ValuesIn(catalog.commands[b.key], b, versions[i + 1]) {
        SameValuesSameFacts(annotations, a.key, catalog.commands[a.key], versions, i);
      }
    }
  }

  lemma {:induction false} EndsOf<T>(segments: seq<Ranged<T>>, versions: seq<Version>, at: Version -> set<T>, k: nat)
    requires Refinement(segments, versions, at) && 0 < k < |segments|
    ensures segments[k - 1].releases.Contains(segments[k - 1].releases.last)
    ensures segments[k].releases.Contains(segments[k].releases.first)
  {
  }

  lemma {:induction false} SegmentFact<T>(segments: seq<Ranged<T>>, versions: seq<Version>, at: Version -> set<T>,
                                          k: nat, i: nat)
    requires Ascending(versions) && Refinement(segments, versions, at) && k < |segments| && i < |versions|
    requires segments[k].releases.Contains(versions[i])
    ensures at(versions[i]) == {segments[k].fact}
  {
    assert versions[i] in versions;
    assert ShowsOnly(segments, versions[i], at(versions[i]));
    assert IndexIn(segments, versions[i]).Some?;
  }

  lemma {:induction false} FactsDiffer<T>(segments: seq<Ranged<T>>, versions: seq<Version>, at: Version -> set<T>,
                                          k: nat, i: nat)
    requires Refinement(segments, versions, at) && 0 < k < |segments| && i + 1 < |versions|
    requires versions[i] == segments[k - 1].releases.last && versions[i + 1] == segments[k].releases.first
    ensures segments[k - 1].fact != segments[k].fact
  {
    assert !Extends(segments, versions, k);
  }

  lemma {:induction false} ActiveOf(catalog: CatalogData, annotations: Annotations, name: string, version: Version,
                                    facts: CommandFacts)
    requires facts in CommandsAt(catalog, annotations, name, version)
    ensures facts.key in catalog.commands && Carries(catalog.commands[facts.key].names, name)
    ensures ActiveCommand(annotations, facts.key, catalog.commands[facts.key], version) == Some(facts)
  {
  }

  /** The values an event has in a release. */
  datatype EventValues = EventValues(
    name: string, profiles: Option<seq<Profile>>, definition: Option<EventDefinition>,
    payload: Option<nat>, excluded: Option<nat>)

  function EventValuesIn(history: History<EventDefinition>, facts: EventFacts, version: Version): EventValues {
    EventValues(NameIn(history.names, version), FactIn(history.availability, version), FactIn(history.definitions, version),
                facts.payload, facts.excluded)
  }

  lemma {:induction false} SameEventValues(annotations: Annotations, key: EventKey,
      history: History<EventDefinition>, versions: seq<Version>, i: nat)
    requires Ascending(versions) && i + 1 < |versions|
    requires Maximal(history.names, versions) && Maximal(history.availability, versions) && Maximal(history.definitions, versions)
    requires AlwaysNamed(history)
    requires var a := ActiveEvent(annotations, key, history, versions[i]);
             var b := ActiveEvent(annotations, key, history, versions[i + 1]);
             && a.Some? && b.Some?
             && EventValuesIn(history, a.value, versions[i]) == EventValuesIn(history, b.value, versions[i + 1])
    ensures ActiveEvent(annotations, key, history, versions[i]) == ActiveEvent(annotations, key, history, versions[i + 1])
  {
    hide Maximal;
    SameIndex(history.availability, versions, i);
    SameIndex(history.definitions, versions, i);
    SameIndex(history.names, versions, i);
  }

  /** The same of the segments of an event. */
  lemma {:induction false} EventNeighboursDiffer(catalog: CatalogData, annotations: Annotations, name: string,
                                                 segments: seq<Ranged<EventFacts>>, k: nat, i: nat)
    requires var versions := Versions(catalog.releases);
             && Ascending(versions) && AllMaximal(catalog)
             && Refinement(segments, versions, version => EventsAt(catalog, annotations, name, version))
             && 0 < k < |segments| && i + 1 < |versions|
             && versions[i] == segments[k - 1].releases.last && versions[i + 1] == segments[k].releases.first
    requires forall key | key in catalog.events :: AlwaysNamed(catalog.events[key])
    ensures var a, b := segments[k - 1].fact, segments[k].fact;
            && a.key in catalog.events && b.key in catalog.events
            && (a.key != b.key
                || EventValuesIn(catalog.events[a.key], a, segments[k - 1].releases.last)
                   != EventValuesIn(catalog.events[b.key], b, segments[k].releases.first))
  {
    hide Refinement, EventsAt, Maximal, ActiveEvent, EventValuesIn, AlwaysNamed, Ascending;
    var versions := Versions(catalog.releases);
    var at := version => EventsAt(catalog, annotations, name, version);
    var a, b := segments[k - 1].fact, segments[k].fact;
    EndsOf(segments, versions, at, k);
    SegmentFact(segments, versions, at, k - 1, i);
    SegmentFact(segments, versions, at, k, i + 1);
    ActiveEventOf(catalog, annotations, name, versions[i], a);
    ActiveEventOf(catalog, annotations, name, versions[i + 1], b);
    FactsDiffer(segments, versions, at, k, i);
    if a.key == b.key {
      assert MaximalHistory(catalog.events[a.key], versions);
      hide AllMaximal;
      if EventValuesIn(catalog.events[a.key], a, versions[i]) == EventValuesIn(catalog.events[b.key], b, versions[i + 1]) {
        SameEventValues(annotations, a.key, catalog.events[a.key], versions, i);
      }
    }
  }

  lemma {:induction false} ActiveEventOf(catalog: CatalogData, annotations: Annotations, name: string, version: Version,
                                         facts: EventFacts)
    requires facts in EventsAt(catalog, annotations, name, version)
    ensures facts.key in catalog.events && Carries(catalog.events[facts.key].names, name)
    ensures ActiveEvent(annotations, facts.key, catalog.events[facts.key], version) == Some(facts)
  {
  }

  // ----- the catalog as one target sees it

  /** The commands one release's binary of a profile accepts. */
  function ViewCommands(catalog: CatalogData, annotations: Annotations, version: Version,
                        profile: Profile): set<CommandFacts> {
    set key | key in catalog.commands && SupportedIn(catalog.commands[key], version, profile)
              && ActiveCommand(annotations, key, catalog.commands[key], version).Some? ::
      ActiveCommand(annotations, key, catalog.commands[key], version).value
  }

  predicate SupportedIn(history: History<CommandDefinition>, version: Version, profile: Profile) {
    match FactIn(history.availability, version)
    case None => false
    case Some(profiles) => profile in profiles
  }

  /** The profiles supporting the command throughout a segment. */
  function SegmentProfiles(catalog: CatalogData, facts: CommandFacts): seq<Profile> {
    if facts.key in catalog.commands && facts.availability < |catalog.commands[facts.key].availability|
    then catalog.commands[facts.key].availability[facts.availability].fact
    else []
  }

  /** A target accepts a command carrying `name` exactly when the segment of its release
      says so, with the same facts. */
  lemma {:induction false} SegmentsAgreeWithView(catalog: CatalogData, annotations: Annotations, name: string,
      segments: seq<Ranged<CommandFacts>>, version: Version, profile: Profile, facts: CommandFacts)
    requires Refinement(segments, Versions(catalog.releases), version => CommandsAt(catalog, annotations, name, version))
    requires version in Versions(catalog.releases)
    ensures FactIn(segments, version) == Some(facts) && profile in SegmentProfiles(catalog, facts) <==>
            && facts in ViewCommands(catalog, annotations, version, profile)
            && facts.key in catalog.commands && Carries(catalog.commands[facts.key].names, name)
  {
    var at := version => CommandsAt(catalog, annotations, name, version);
    assert ShowsOnly(segments, version, at(version));
    assert FactIn(segments, version) == Some(facts) <==> facts in CommandsAt(catalog, annotations, name, version);
    hide Refinement, FactIn;
    InView(catalog, annotations, name, version, profile, facts);
  }

  lemma {:induction false} InView(catalog: CatalogData, annotations: Annotations, name: string, version: Version,
                                  profile: Profile, facts: CommandFacts)
    ensures facts in CommandsAt(catalog, annotations, name, version) && profile in SegmentProfiles(catalog, facts) <==>
            && facts in ViewCommands(catalog, annotations, version, profile)
            && facts.key in catalog.commands && Carries(catalog.commands[facts.key].names, name)
  {
    if facts in CommandsAt(catalog, annotations, name, version) {
      ActiveOf(catalog, annotations, name, version, facts);
      assert SupportedIn(catalog.commands[facts.key], version, profile) <==> profile in SegmentProfiles(catalog, facts);
    }
    if facts in ViewCommands(catalog, annotations, version, profile) {
      var key :| key in catalog.commands && SupportedIn(catalog.commands[key], version, profile)
                 && ActiveCommand(annotations, key, catalog.commands[key], version) == Some(facts);
      assert facts.key == key;
    }
  }
}

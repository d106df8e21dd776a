/** The variants of a declaration partition the targets that support its command. */
module Partition {
  import opened Options
  import opened Layout
  import opened Release
  import opened Catalog
  import opened Cfg
  import opened Variants
  import opened Segments
  import opened MergeCanonical

  /** A segment of the command covers a release and profile. */
  predicate Supported(segments: seq<Ranged<Resolved>>, version: Version, profile: Profile) {
    exists i | 0 <= i < |segments| :: CoveredBy(TargetOf(segments[i]), version, profile)
  }

  function RangesOfSegments(segments: seq<Ranged<Resolved>>): (ranges: seq<Range>)
    ensures |ranges| == |segments|
    ensures forall i | 0 <= i < |segments| :: ranges[i] == segments[i].releases
  {
    seq(|segments|, i requires 0 <= i < |segments| => segments[i].releases)
  }

  /** Which fields exist in one release. */
  function KeyAt(fields: seq<InputField>, platform: Platform, version: Version): seq<bool> {
    KeyOf(fields, platform, Range(version, version))
  }

  /** Allowed bounds make the fields of a segment those of each of its releases. */
  lemma {:induction false} SegmentKey(versions: seq<Version>, fields: seq<InputField>, platform: Platform,
                                      segments: seq<Ranged<Resolved>>, i: nat, version: Version)
    requires BoundsAllowed(versions, platform, RangesOfSegments(segments), fields)
    requires i < |segments| && segments[i].releases.Contains(version)
    ensures KeyOf(fields, platform, segments[i].releases) == KeyAt(fields, platform, version)
  {
    var ranges := RangesOfSegments(segments);
    forall j | 0 <= j < |fields|
      ensures fields[j].ExistsIn(platform, segments[i].releases) == fields[j].ExistsAt(platform, version)
    {
      assert FieldAllowed(versions, platform, ranges, fields[j]);
      if fields[j].IsOn(platform) {
        ExistsThroughout(fields[j], platform, ranges, i, version);
      }
    }
  }

  /** A segment with a key covers a release and profile. */
  ghost predicate CoveredWith(fields: seq<InputField>, platform: Platform, segments: seq<Ranged<Resolved>>,
                              key: seq<bool>, version: Version, profile: Profile)
  {
    exists i | 0 <= i < |segments| ::
      CoveredBy(TargetOf(segments[i]), version, profile) && KeyOf(fields, platform, segments[i].releases) == key
  }

  lemma {:induction false} MembersCover(fields: seq<InputField>, platform: Platform, segments: seq<Ranged<Resolved>>,
                                        key: seq<bool>, version: Version, profile: Profile)
    ensures Covers(TargetsOf(WithKey(fields, platform, segments, key)), version, profile) <==>
            CoveredWith(fields, platform, segments, key, version, profile)
  {
    hide WithKey, CoveredBy, KeyOf;
    var members := WithKey(fields, platform, segments, key);
    var targets := TargetsOf(members);
    if Covers(targets, version, profile) {
      var t :| 0 <= t < |members| && CoveredBy(targets[t], version, profile);
      WithKeyContains(fields, platform, segments, key, members[t]);
      var i :| 0 <= i < |segments| && segments[i] == members[t];
    }
    if CoveredWith(fields, platform, segments, key, version, profile) {
      var i :| 0 <= i < |segments| && CoveredBy(TargetOf(segments[i]), version, profile)
               && KeyOf(fields, platform, segments[i].releases) == key;
      WithKeyContains(fields, platform, segments, key, segments[i]);
      var t :| 0 <= t < |members| && members[t] == segments[i];
      assert CoveredBy(targets[t], version, profile);
    }
  }

  lemma {:induction false} VariantCovers(variants: seq<Declaration>, fields: seq<InputField>, platform: Platform,
                                         scope: CommandScope, segments: seq<Ranged<Resolved>>, n: nat,
                                         version: Version, profile: Profile)
    requires Grouped(variants, fields, platform, scope, segments) && n < |variants|
    ensures Covers(variants[n].targets, version, profile) <==>
            CoveredWith(fields, platform, segments, variants[n].key, version, profile)
  {
    assert MadeOf(variants[n], scope, WithKey(fields, platform, segments, variants[n].key));
    hide Grouped, WithKey, WireOf, SpanOf, Covers, CoveredWith;
    MembersCover(fields, platform, segments, variants[n].key, version, profile);
  }

  /** A variant covers exactly the supported targets whose release has its fields. */
  lemma {:induction false} CoversItsFields(versions: seq<Version>, variants: seq<Declaration>,
                                           fields: seq<InputField>, platform: Platform, scope: CommandScope,
                                           segments: seq<Ranged<Resolved>>, n: nat, version: Version,
                                           profile: Profile)
    requires Grouped(variants, fields, platform, scope, segments) && n < |variants|
    requires BoundsAllowed(versions, platform, RangesOfSegments(segments), fields)
    ensures Covers(variants[n].targets, version, profile) <==>
            Supported(segments, version, profile) && variants[n].key == KeyAt(fields, platform, version)
  {
    VariantCovers(variants, fields, platform, scope, segments, n, version, profile);
    hide Grouped, BoundsAllowed, KeyOf, KeyAt;
    forall i | 0 <= i < |segments| && CoveredBy(TargetOf(segments[i]), version, profile)
      ensures KeyOf(fields, platform, segments[i].releases) == KeyAt(fields, platform, version)
    {
      SegmentKey(versions, fields, platform, segments, i, version);
    }
  }

  /** Exactly one variant covers a supported release and profile, the one with the fields
      of that single release; none covers any other. */
  lemma {:induction false} VariantsPartition(versions: seq<Version>, variants: seq<Declaration>,
                                             fields: seq<InputField>, platform: Platform, scope: CommandScope,
                                             segments: seq<Ranged<Resolved>>, version: Version, profile: Profile)
    requires Grouped(variants, fields, platform, scope, segments)
    requires BoundsAllowed(versions, platform, RangesOfSegments(segments), fields)
    ensures Supported(segments, version, profile) <==>
            exists n | 0 <= n < |variants| :: Covers(variants[n].targets, version, profile)
    ensures forall n | 0 <= n < |variants| && Covers(variants[n].targets, version, profile) ::
              variants[n].key == KeyAt(fields, platform, version)
    ensures forall n, m | 0 <= n < m < |variants| ::
              !(Covers(variants[n].targets, version, profile) && Covers(variants[m].targets, version, profile))
  {
    forall n | 0 <= n < |variants|
      ensures Covers(variants[n].targets, version, profile) <==>
              Supported(segments, version, profile) && variants[n].key == KeyAt(fields, platform, version)
    {
      CoversItsFields(versions, variants, fields, platform, scope, segments, n, version, profile);
    }
    if Supported(segments, version, profile) {
      var i :| 0 <= i < |segments| && CoveredBy(TargetOf(segments[i]), version, profile);
      SegmentKey(versions, fields, platform, segments, i, version);
      assert HasKey(variants, KeyOf(fields, platform, segments[i].releases));
    }
    hide Covers, Supported, KeyAt;
  }

  /** What a variant encodes is what each release it covers encodes. */
  lemma {:induction false} VariantWire(versions: seq<Version>, variants: seq<Declaration>, fields: seq<InputField>,
                                       platform: Platform, scope: CommandScope, segments: seq<Ranged<Resolved>>,
                                       n: nat, i: nat, version: Version, profile: Profile)
    requires Grouped(variants, fields, platform, scope, segments) && Agreeing(fields, platform, scope, segments)
    requires AllReferenced(scope, segments)
    requires BoundsAllowed(versions, platform, RangesOfSegments(segments), fields)
    requires n < |variants| && Covers(variants[n].targets, version, profile)
    requires i < |segments| && segments[i].releases.Contains(version)
    ensures var wire := WireOf(scope, segments[i].fact);
            && wire.Some? && Referenced(variants[n].wire) && Referenced(wire.value)
            && SameWire(variants[n].wire, wire.value)
  {
    hide Grouped, BoundsAllowed, Covers, KeyOf, KeyAt, SameWire, WireOf, AllReferenced, Referenced;
    CoversItsFields(versions, variants, fields, platform, scope, segments, n, version, profile);
    SegmentKey(versions, fields, platform, segments, i, version);
    var latest := LatestMember(variants, fields, platform, scope, segments, n);
    KeyedAlike(fields, platform, scope, segments, latest, i);
  }

  /** Any two segments with the same fields are the same on the wire, either way round. */
  lemma {:induction false} KeyedAlike(fields: seq<InputField>, platform: Platform, scope: CommandScope,
                                      segments: seq<Ranged<Resolved>>, i: nat, j: nat)
    requires AllReferenced(scope, segments) && Agreeing(fields, platform, scope, segments)
    requires i < |segments| && j < |segments|
    requires KeyOf(fields, platform, segments[i].releases) == KeyOf(fields, platform, segments[j].releases)
    ensures SameWires(scope, segments[i].fact, segments[j].fact)
  {
    hide KeyOf, WireOf, Referenced, SameWire;
    var a, b := WireOf(scope, segments[i].fact).value, WireOf(scope, segments[j].fact).value;
    if j < i {
      assert SameWires(scope, segments[j].fact, segments[i].fact);
    }
    SameWireEquivalence(a, b, a);
    SameWireEquivalence(b, a, b);
  }

  // ----- conditional compilation

  /** A variant is compiled for a release and profile. */
  ghost predicate Compiled(catalog: CatalogData, variant: Declaration, version: Version, profile: Profile) {
    Holds(ConditionFor(catalog, variant.targets), Selection(catalog.platform, version, profile))
  }

  ghost predicate SegmentsWithin(catalog: CatalogData, segments: seq<Ranged<Resolved>>) {
    forall version, profile | version in Versions(catalog.releases) && Supported(segments, version, profile) ::
      profile in ProfilesIn(catalog, version)
  }

  lemma {:induction false} CompiledIfCovered(catalog: CatalogData, variants: seq<Declaration>,
                                             fields: seq<InputField>, scope: CommandScope,
                                             segments: seq<Ranged<Resolved>>, n: nat, version: Version,
                                             profile: Profile)
    requires ValidReleases(catalog) && SegmentsWithin(catalog, segments)
    requires Grouped(variants, fields, catalog.platform, scope, segments) && n < |variants|
    requires version in Versions(catalog.releases) && profile in ProfilesIn(catalog, version)
    ensures Compiled(catalog, variants[n], version, profile) <==> Covers(variants[n].targets, version, profile)
  {
    hide ValidReleases, Grouped;
    forall v, p | v in Versions(catalog.releases) && Covers(variants[n].targets, v, p) ensures p in ProfilesIn(catalog, v) {
      VariantCovers(variants, fields, catalog.platform, scope, segments, n, v, p);
      assert Supported(segments, v, p);
    }
    ConditionMeansCovered(catalog, variants[n].targets, version, profile);
  }

  /** For every selection of a release and a profile it has, exactly one variant compiles if
      the command is supported there, and it declares exactly the fields whose bounds hold
      in that release; otherwise none compiles. */
  lemma {:induction false} OneDeclaration(catalog: CatalogData, variants: seq<Declaration>, fields: seq<InputField>,
                                          scope: CommandScope, segments: seq<Ranged<Resolved>>, version: Version,
                                          profile: Profile)
    requires ValidReleases(catalog) && SegmentsWithin(catalog, segments)
    requires Grouped(variants, fields, catalog.platform, scope, segments)
    requires BoundsAllowed(Versions(catalog.releases), catalog.platform, RangesOfSegments(segments), fields)
    requires version in Versions(catalog.releases) && profile in ProfilesIn(catalog, version)
    ensures Supported(segments, version, profile) <==>
            exists n | 0 <= n < |variants| :: Compiled(catalog, variants[n], version, profile)
    ensures forall n | 0 <= n < |variants| && Compiled(catalog, variants[n], version, profile) ::
              variants[n].key == KeyAt(fields, catalog.platform, version)
    ensures forall n, m | 0 <= n < m < |variants| ::
              !(Compiled(catalog, variants[n], version, profile) && Compiled(catalog, variants[m], version, profile))
  {
    VariantsPartition(Versions(catalog.releases), variants, fields, catalog.platform, scope, segments, version, profile);
    forall n | 0 <= n < |variants|
      ensures Compiled(catalog, variants[n], version, profile) <==> Covers(variants[n].targets, version, profile)
    {
      CompiledIfCovered(catalog, variants, fields, scope, segments, n, version, profile);
    }
    hide Compiled, Covers, Supported, KeyAt, Grouped;
  }

  // ----- from the catalog

  /** An annotation's layouts, with the structures they use. */
  datatype Note = Note(params: seq<Field>, results: seq<Field>, structs: Structs)

  function ResolvedBy(notes: nat -> Note, extracted: LayoutFact, structs: Structs, note: Option<nat>,
                      returned: bool): ResolvedLayout {
    match note
    case None => ResolvedLayout(extracted, structs)
    case Some(n) => ResolvedLayout(LayoutFact.Resolved(if returned then notes(n).results else notes(n).params), notes(n).structs)
  }

  /** A segment's command with every layer resolved. */
  function ResolvedCommand(catalog: CatalogData, notes: nat -> Note, facts: CommandFacts): Option<Resolved> {
    if facts.key !in catalog.commands || facts.definition >= |catalog.commands[facts.key].definitions| then None else
    var definition := catalog.commands[facts.key].definitions[facts.definition].fact;
    Some(Resolved.Resolved(
      facts.key.scope, facts.excluded.Some?, SegmentProfiles(catalog, facts), facts.key.opcode, definition.completion,
      ResolvedBy(notes, definition.params, definition.structs, facts.params, false),
      match definition.results
      case None => None
      case Some(results) => Some(ResolvedBy(notes, results, definition.structs, facts.results, true))))
  }

  ghost predicate ResolvedSegments(catalog: CatalogData, notes: nat -> Note, facts: seq<Ranged<CommandFacts>>,
                                   segments: seq<Ranged<Resolved>>)
  {
    && |segments| == |facts|
    && forall i | 0 <= i < |facts| ::
         segments[i].releases == facts[i].releases && Some(segments[i].fact) == ResolvedCommand(catalog, notes, facts[i].fact)
  }

  /** A target accepts a command that ever carried `name`. */
  ghost predicate Accepts(catalog: CatalogData, annotations: Annotations, name: string, version: Version,
                          profile: Profile, c: CommandFacts) {
    && c in ViewCommands(catalog, annotations, version, profile)
    && c.key in catalog.commands && Carries(catalog.commands[c.key].names, name)
  }

  ghost predicate Offers(catalog: CatalogData, annotations: Annotations, name: string, version: Version,
                         profile: Profile) {
    exists c :: Accepts(catalog, annotations, name, version, profile, c)
  }

  /** The resolved segments support exactly what the target's view of the catalog shows. */
  lemma {:induction false} SupportedIsInView(catalog: CatalogData, annotations: Annotations, notes: nat -> Note,
                                             name: string, facts: seq<Ranged<CommandFacts>>,
                                             segments: seq<Ranged<Resolved>>, version: Version, profile: Profile)
    requires Refinement(facts, Versions(catalog.releases), v => CommandsAt(catalog, annotations, name, v))
    requires ResolvedSegments(catalog, notes, facts, segments)
    requires version in Versions(catalog.releases)
    ensures Supported(segments, version, profile) <==>
            Offers(catalog, annotations, name, version, profile)
  {
    hide ViewCommands, CommandsAt, Carries, SegmentProfiles, FactIn;
    if Supported(segments, version, profile) {
      var i :| 0 <= i < |segments| && CoveredBy(TargetOf(segments[i]), version, profile);
      FactInside(facts, Versions(catalog.releases), i, version);
      SegmentsAgreeWithView(catalog, annotations, name, facts, version, profile, facts[i].fact);
      assert Accepts(catalog, annotations, name, version, profile, facts[i].fact);
    }
    if c :| Accepts(catalog, annotations, name, version, profile, c) {
      SegmentsAgreeWithView(catalog, annotations, name, facts, version, profile, c);
      FactInRange(facts, version, c);
      var i :| 0 <= i < |facts| && facts[i].releases.Contains(version) && facts[i].fact == c;
      assert CoveredBy(TargetOf(segments[i]), version, profile);
    }
  }

  lemma {:induction false} FactInRange<T>(ranged: seq<Ranged<T>>, version: Version, fact: T)
    requires FactIn(ranged, version) == Some(fact)
    ensures exists i | 0 <= i < |ranged| :: ranged[i].releases.Contains(version) && ranged[i].fact == fact
  {
  }

  lemma {:induction false} ViewWithinTargets(catalog: CatalogData, annotations: Annotations, check: DomainCheck,
                                             version: Version, profile: Profile, facts: CommandFacts)
    requires Valid(catalog, check) && version in Versions(catalog.releases)
    requires facts in ViewCommands(catalog, annotations, version, profile)
    ensures profile in ProfilesIn(catalog, version)
  {
    var key :| key in catalog.commands && SupportedIn(catalog.commands[key], version, profile);
    hide ViewCommands, ValidEvent, ValidStatuses, ValidFact, ValidBearers, ValidDomains, ProfilesIn;
    var history := catalog.commands[key];
    assert ValidHistory(catalog, history);
    var index := IndexIn(history.availability, version);
    assert ValidAvailability(catalog, history.availability[index.value]);
  }

  lemma {:induction false} ValidSegmentsWithin(catalog: CatalogData, annotations: Annotations, notes: nat -> Note,
      name: string, facts: seq<Ranged<CommandFacts>>, segments: seq<Ranged<Resolved>>, check: DomainCheck)
    requires Valid(catalog, check)
    requires Refinement(facts, Versions(catalog.releases), v => CommandsAt(catalog, annotations, name, v))
    requires ResolvedSegments(catalog, notes, facts, segments)
    ensures SegmentsWithin(catalog, segments)
  {
    hide Valid, Refinement, ResolvedSegments, Supported, ViewCommands;
    forall version, profile | version in Versions(catalog.releases) && Supported(segments, version, profile)
      ensures profile in ProfilesIn(catalog, version)
    {
      SupportedIsInView(catalog, annotations, notes, name, facts, segments, version, profile);
      var c :| Accepts(catalog, annotations, name, version, profile, c);
      ViewWithinTargets(catalog, annotations, check, version, profile, c);
    }
  }

  /** A command with the name, supported by the profile, and what is said of it in a release. */
  ghost predicate Offered(catalog: CatalogData, annotations: Annotations, name: string, version: Version,
                          profile: Profile, c: CommandFacts) {
    && c.key in catalog.commands
    && var history := catalog.commands[c.key];
    && (exists i | 0 <= i < |history.names| :: history.names[i].fact == name)
    && AnswersCommand(annotations, history, version, c)
    && profile in history.availability[c.availability].fact
  }

  lemma {:induction false} AcceptedOffered(catalog: CatalogData, annotations: Annotations, name: string,
                                           version: Version, profile: Profile, c: CommandFacts)
    requires Accepts(catalog, annotations, name, version, profile, c)
    ensures Offered(catalog, annotations, name, version, profile, c)
  {
    var key :| key in catalog.commands && SupportedIn(catalog.commands[key], version, profile)
               && ActiveCommand(annotations, key, catalog.commands[key], version) == Some(c);
    CommandAnswered(annotations, key, catalog.commands[key], version);
    hide AnswersCommand, FactIn;
    assert SupportedAt(catalog.commands[key], version, profile, c.availability) by {
      FirstSupported(annotations, catalog.commands[key], version, profile, c);
    }
  }

  ghost predicate SupportedAt(history: History<CommandDefinition>, version: Version, profile: Profile, position: nat) {
    position < |history.availability| && profile in history.availability[position].fact
  }

  lemma {:induction false} FirstSupported(annotations: Annotations, history: History<CommandDefinition>,
                                          version: Version, profile: Profile, c: CommandFacts)
    requires SupportedIn(history, version, profile) && AnswersCommand(annotations, history, version, c)
    ensures SupportedAt(history, version, profile, c.availability)
  {
    var index := IndexIn(history.availability, version);
    assert FirstHolding(history.availability, version, c.availability);
    assert index.Some? && index.value == c.availability;
  }

  lemma {:induction false} FirstIndex<T>(ranged: seq<Ranged<T>>, version: Version, position: nat)
    requires FirstHolding(ranged, version, position)
    ensures IndexIn(ranged, version) == Some(position)
  {
    var index := IndexIn(ranged, version);
    assert index.Some?;
  }

  lemma {:induction false} NoIndex<T>(ranged: seq<Ranged<T>>, version: Version)
    requires !Holding(ranged, version)
    ensures IndexIn(ranged, version) == None
  {
  }

  lemma {:induction false} AnswersActive(annotations: Annotations, history: History<CommandDefinition>, version: Version,
                                         c: CommandFacts)
    requires AnswersCommand(annotations, history, version, c)
    ensures ActiveCommand(annotations, c.key, history, version) == Some(c)
  {
    FirstIndex(history.availability, version, c.availability);
    FirstIndex(history.definitions, version, c.definition);
    if c.name.Some? {
      FirstIndex(history.names, version, c.name.value);
    } else {
      NoIndex(history.names, version);
    }
    hide IndexIn, FirstHolding, Holding;
  }

  lemma {:induction false} OfferedAccepted(catalog: CatalogData, annotations: Annotations, name: string,
                                           version: Version, profile: Profile, c: CommandFacts)
    requires Offered(catalog, annotations, name, version, profile, c)
    ensures Accepts(catalog, annotations, name, version, profile, c)
  {
    var history := catalog.commands[c.key];
    AnswersActive(annotations, history, version, c);
    FirstIndex(history.availability, version, c.availability);
    hide AnswersCommand, ActiveCommand;
    assert SupportedIn(history, version, profile);
    assert ActiveCommand(annotations, c.key, history, version).value in ViewCommands(catalog, annotations, version, profile);
  }

  lemma {:induction false} OffersOffered(catalog: CatalogData, annotations: Annotations, name: string, version: Version,
                                         profile: Profile)
    ensures Offers(catalog, annotations, name, version, profile) <==>
            exists c :: Offered(catalog, annotations, name, version, profile, c)
  {
    hide Accepts, Offered;
    if c :| Accepts(catalog, annotations, name, version, profile, c) {
      AcceptedOffered(catalog, annotations, name, version, profile, c);
    }
    if c :| Offered(catalog, annotations, name, version, profile, c) {
      OfferedAccepted(catalog, annotations, name, version, profile, c);
    }
  }

  /** The whole way from the catalog: on every target, exactly one declaration of a command
      compiles if the target's view of the catalog has the command, and none otherwise. */
  lemma {:induction false} DeclaredWhereSupported(catalog: CatalogData, annotations: Annotations, notes: nat -> Note,
      name: string, check: DomainCheck, facts: seq<Ranged<CommandFacts>>, segments: seq<Ranged<Resolved>>,
      variants: seq<Declaration>, fields: seq<InputField>, scope: CommandScope, version: Version, profile: Profile)
    requires Valid(catalog, check)
    requires Refinement(facts, Versions(catalog.releases), v => CommandsAt(catalog, annotations, name, v))
    requires ResolvedSegments(catalog, notes, facts, segments)
    requires Grouped(variants, fields, catalog.platform, scope, segments)
    requires BoundsAllowed(Versions(catalog.releases), catalog.platform, RangesOfSegments(segments), fields)
    requires version in Versions(catalog.releases) && profile in ProfilesIn(catalog, version)
    ensures (exists n | 0 <= n < |variants| :: Compiled(catalog, variants[n], version, profile)) <==>
            exists c :: Offered(catalog, annotations, name, version, profile, c)
    ensures forall n, m | 0 <= n < m < |variants| ::
              !(Compiled(catalog, variants[n], version, profile) && Compiled(catalog, variants[m], version, profile))
    ensures forall n | 0 <= n < |variants| && Compiled(catalog, variants[n], version, profile) ::
              variants[n].key == KeyAt(fields, catalog.platform, version)
  {
    ValidSegmentsWithin(catalog, annotations, notes, name, facts, segments, check);
    SupportedIsInView(catalog, annotations, notes, name, facts, segments, version, profile);
    assert ValidReleases(catalog);
    hide *;
    OffersOffered(catalog, annotations, name, version, profile);
    OneDeclaration(catalog, variants, fields, scope, segments, version, profile);
  }

  // ----- what a compiled declaration encodes

  ghost predicate ValidNotes(notes: nat -> Note) {
    forall n: nat ::
      Acyclic(notes(n).structs) && ValidLayout(notes(n).structs, notes(n).params) && ValidLayout(notes(n).structs, notes(n).results)
  }

  lemma {:induction false} ResolvedReferences(notes: nat -> Note, extracted: LayoutFact, structs: Structs,
                                              note: Option<nat>, returned: bool)
    requires ValidNotes(notes) && ValidFact(extracted, structs)
    ensures var layout := ResolvedBy(notes, extracted, structs, note, returned).layout;
            layout.Resolved? ==> S.ReferencesExist(layout.fields)
  {
    match note {
      case None =>
        if extracted.Resolved? {
          S.ValidReferences(structs, extracted.fields);
        }
      case Some(n) =>
        S.ValidReferences(notes(n).structs, notes(n).params);
        S.ValidReferences(notes(n).structs, notes(n).results);
    }
  }

  lemma {:induction false} DefinitionValid(catalog: CatalogData, check: DomainCheck, key: CommandKey, k: nat)
    requires Valid(catalog, check) && key in catalog.commands && k < |catalog.commands[key].definitions|
    ensures var definition := catalog.commands[key].definitions[k].fact;
            && ValidFact(definition.params, definition.structs)
            && (definition.results.Some? ==> ValidFact(definition.results.value, definition.structs))
  {
    hide ValidFact, ValidHistory, ValidDomains, ValidBearers, ValidEvent, ValidStatuses, ValidReleases;
    assert ValidCommand(catalog, key, catalog.commands[key], check);
  }

  /** The layouts of a validated catalog, and of its annotations, refer to their own members. */
  lemma {:induction false} ValidReferenced(catalog: CatalogData, notes: nat -> Note, check: DomainCheck,
      facts: seq<Ranged<CommandFacts>>, segments: seq<Ranged<Resolved>>, scope: CommandScope)
    requires Valid(catalog, check) && ValidNotes(notes) && ResolvedSegments(catalog, notes, facts, segments)
    ensures AllReferenced(scope, segments)
  {
    hide Valid, ValidNotes, ValidFact, ResolvedBy, SegmentProfiles;
    forall i | 0 <= i < |segments| && WireOf(scope, segments[i].fact).Some?
      ensures Referenced(WireOf(scope, segments[i].fact).value)
    {
      var fact := facts[i].fact;
      assert Some(segments[i].fact) == ResolvedCommand(catalog, notes, fact);
      DefinitionValid(catalog, check, fact.key, fact.definition);
      var definition := catalog.commands[fact.key].definitions[fact.definition].fact;
      ResolvedReferences(notes, definition.params, definition.structs, fact.params, false);
      if definition.results.Some? {
        ResolvedReferences(notes, definition.results.value, definition.structs, fact.results, true);
      }
    }
  }

  /** On every target, a compiled declaration is what the catalog and its annotations say in
      the target's release of a command of the name its profile supports. */
  lemma {:induction false} DeclaredAsResolved(catalog: CatalogData, annotations: Annotations, notes: nat -> Note,
      name: string, check: DomainCheck, facts: seq<Ranged<CommandFacts>>, segments: seq<Ranged<Resolved>>,
      variants: seq<Declaration>, fields: seq<InputField>, scope: CommandScope, version: Version, profile: Profile,
      n: nat)
    requires Valid(catalog, check) && ValidNotes(notes)
    requires Refinement(facts, Versions(catalog.releases), v => CommandsAt(catalog, annotations, name, v))
    requires ResolvedSegments(catalog, notes, facts, segments)
    requires Agreeing(fields, catalog.platform, scope, segments)
    requires Grouped(variants, fields, catalog.platform, scope, segments)
    requires BoundsAllowed(Versions(catalog.releases), catalog.platform, RangesOfSegments(segments), fields)
    requires version in Versions(catalog.releases) && profile in ProfilesIn(catalog, version)
    requires n < |variants| && Compiled(catalog, variants[n], version, profile)
    ensures exists c ::
              && Offered(catalog, annotations, name, version, profile, c)
              && DeclaredFrom(catalog, notes, variants[n], scope, c)
  {
    ValidSegmentsWithin(catalog, annotations, notes, name, facts, segments, check);
    ValidReferenced(catalog, notes, check, facts, segments, scope);
    assert ValidReleases(catalog);
    hide Valid, ValidReleases, ValidNotes, Refinement, ResolvedCommand, Grouped, Agreeing, BoundsAllowed, WireOf, SameWire, Referenced,
      Compiled, Covers, CommandsAt, AllReferenced, Accepts, KeyAt;
    CompiledIfCovered(catalog, variants, fields, scope, segments, n, version, profile);
    CoversItsFields(Versions(catalog.releases), variants, fields, catalog.platform, scope, segments, n, version, profile);
    var i :| 0 <= i < |segments| && CoveredBy(TargetOf(segments[i]), version, profile);
    SegmentAccepted(catalog, annotations, notes, name, facts, segments, i, version, profile);
    VariantWire(Versions(catalog.releases), variants, fields, catalog.platform, scope, segments, n, i, version, profile);
    var c := facts[i].fact;
    assert EncodesAs(catalog, notes, variants[n], scope, c);
    AcceptedOffered(catalog, annotations, name, version, profile, c);
    EncodesDeclared(catalog, notes, variants[n], scope, c);
    hide *;
  }

  /** The declaration has the command's opcode, scope and completion, its parameters those of
      the annotation of them or else of the definition, and its results likewise, each with
      the structures of the same source. */
  ghost predicate DeclaredFrom(catalog: CatalogData, notes: nat -> Note, variant: Declaration, scope: CommandScope,
                               c: CommandFacts) {
    && c.key in catalog.commands && c.definition < |catalog.commands[c.key].definitions|
    && var definition := catalog.commands[c.key].definitions[c.definition].fact;
    && c.key.scope == scope && c.excluded.None?
    && variant.wire.opcode == c.key.opcode && variant.wire.completion == definition.completion
    && (match c.params
        case Some(n) => variant.wire.structs == notes(n).structs && Alike(variant.wire.params, notes(n).params)
        case None =>
          && definition.params.Resolved? && variant.wire.structs == definition.structs
          && Alike(variant.wire.params, definition.params.fields))
    && (match (definition.results, c.results)
        case (None, _) => variant.wire.results == [] && variant.wire.resultStructs == variant.wire.structs
        case (Some(_), Some(n)) => variant.wire.resultStructs == notes(n).structs && Alike(variant.wire.results, notes(n).results)
        case (Some(results), None) =>
          && results.Resolved? && variant.wire.resultStructs == definition.structs
          && Alike(variant.wire.results, results.fields))
  }

  lemma {:induction false} EncodesDeclared(catalog: CatalogData, notes: nat -> Note, variant: Declaration,
                                           scope: CommandScope, c: CommandFacts)
    requires EncodesAs(catalog, notes, variant, scope, c)
    ensures DeclaredFrom(catalog, notes, variant, scope, c)
  {
    hide S.ReferencesExist, SegmentProfiles;
  }

  /** A declaration is the same on the wire as a resolved command. */
  ghost predicate EncodesAs(catalog: CatalogData, notes: nat -> Note, variant: Declaration, scope: CommandScope,
                            c: CommandFacts) {
    var resolved := ResolvedCommand(catalog, notes, c);
    && resolved.Some?
    && var wire := WireOf(scope, resolved.value);
    && wire.Some? && Referenced(variant.wire) && Referenced(wire.value) && SameWire(variant.wire, wire.value)
  }

  lemma {:induction false} SegmentAccepted(catalog: CatalogData, annotations: Annotations, notes: nat -> Note,
      name: string, facts: seq<Ranged<CommandFacts>>, segments: seq<Ranged<Resolved>>, i: nat, version: Version,
      profile: Profile)
    requires Refinement(facts, Versions(catalog.releases), v => CommandsAt(catalog, annotations, name, v))
    requires ResolvedSegments(catalog, notes, facts, segments) && i < |segments|
    requires version in Versions(catalog.releases) && CoveredBy(TargetOf(segments[i]), version, profile)
    ensures Accepts(catalog, annotations, name, version, profile, facts[i].fact)
    ensures segments[i].releases.Contains(version) && Some(segments[i].fact) == ResolvedCommand(catalog, notes, facts[i].fact)
  {
    hide ViewCommands, CommandsAt, Carries, SegmentProfiles, FactIn;
    FactInside(facts, Versions(catalog.releases), i, version);
    SegmentsAgreeWithView(catalog, annotations, name, facts, version, profile, facts[i].fact);
  }
}

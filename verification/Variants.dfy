/** The variants of a command's declaration: one for every combination of its bounded fields
    (crates/stm32wb-hci-macros/src/command.rs). */
module Variants {
  import opened Options
  import opened Layout
  import opened Release
  import opened Catalog
  import opened Cfg
  import S = SameLayout

  /** The releases of a platform with a field. */
  datatype Bounds = Bounds(since: Option<Version>, before: Option<Version>)

  /** A declared field, with its bounds on each platform, and the platform it is limited to. */
  datatype InputField = InputField(name: string, wb: Bounds, wba: Bounds, only: Option<Platform>) {
    function On(platform: Platform): Bounds {
      if platform.Stm32wb? then wb else wba
    }

    predicate IsOn(platform: Platform) {
      only.None? || only.value == platform
    }

    /** Both bounds hold from the first of `releases` to the last. */
    predicate ExistsIn(platform: Platform, releases: Range) {
      && IsOn(platform)
      && (On(platform).since.Some? ==> AtMost(On(platform).since.value, releases.first))
      && (On(platform).before.Some? ==> Before(releases.last, On(platform).before.value))
    }

    /** Whether the field exists in one release. */
    predicate ExistsAt(platform: Platform, version: Version) {
      ExistsIn(platform, Range(version, version))
    }
  }

  /** A field exists in a release exactly if it is not limited to another platform, the
      release is none before its platform's `since`, and before its platform's `before`. */
  lemma {:induction false} ExistsByNumber(field: InputField, platform: Platform, version: Version)
    ensures var bounds := if platform == Stm32wb then field.wb else field.wba;
            field.ExistsAt(platform, version) <==>
            && field.only in {None, Some(platform)}
            && (bounds.since.Some? ==> Number(bounds.since.value) <= Number(version))
            && (bounds.before.Some? ==> Number(version) < Number(bounds.before.value))
  {
    var bounds := field.On(platform);
    assert field.IsOn(platform) <==> field.only in {None, Some(platform)};
    assert bounds == if platform == Stm32wb then field.wb else field.wba;
    hide Number, Before, AtMost;
    if bounds.since.Some? {
      OrderedByNumber(bounds.since.value, version);
    }
    if bounds.before.Some? {
      OrderedByNumber(version, bounds.before.value);
    }
  }

  /** A field exists throughout a range exactly if it exists at both ends. */
  lemma {:induction false} ExistsAtEnds(field: InputField, platform: Platform, releases: Range)
    requires Number(releases.first) <= Number(releases.last)
    ensures field.ExistsIn(platform, releases) <==>
            field.ExistsAt(platform, releases.first) && field.ExistsAt(platform, releases.last)
  {
    var bounds := field.On(platform);
    OrderedByNumber(releases.first, releases.last);
  }

  // ----- checking bounds

  predicate Ordered(bounds: Bounds) {
    bounds.since.Some? && bounds.before.Some? ==> Before(bounds.since.value, bounds.before.value)
  }

  predicate Inside(ranges: seq<Range>, version: Version) {
    exists i | 0 <= i < |ranges| :: Before(ranges[i].first, version) && AtMost(version, ranges[i].last)
  }

  /** A bound is a known release at which a segment may start. */
  predicate BoundAllowed(versions: seq<Version>, ranges: seq<Range>, bound: Option<Version>) {
    bound.Some? ==> bound.value in versions && !Inside(ranges, bound.value)
  }

  function Count(field: InputField, platform: Platform, ranges: seq<Range>): (n: nat)
    ensures n <= |ranges|
  {
    if ranges == [] then 0
    else (if field.ExistsIn(platform, ranges[0]) then 1 else 0) + Count(field, platform, ranges[1..])
  }

  /** The checks of one field's bounds. */
  predicate FieldAllowed(versions: seq<Version>, platform: Platform, ranges: seq<Range>, field: InputField) {
    var bounds := field.On(platform);
    && Ordered(bounds)
    && (field.IsOn(platform) ==>
          && BoundAllowed(versions, ranges, bounds.since)
          && BoundAllowed(versions, ranges, bounds.before)
          && (bounds.since.Some? || bounds.before.Some? ==> 0 < Count(field, platform, ranges) < |ranges|))
  }

  predicate BoundsAllowed(versions: seq<Version>, platform: Platform, ranges: seq<Range>, fields: seq<InputField>) {
    forall j | 0 <= j < |fields| :: FieldAllowed(versions, platform, ranges, fields[j])
  }

  /** A bound is one of the catalog's releases, and no segment has it after its first one. */
  predicate StartsSegments(versions: seq<Version>, ranges: seq<Range>, bound: Version) {
    && bound in versions
    && forall i | 0 <= i < |ranges| :: !(Number(ranges[i].first) < Number(bound) <= Number(ranges[i].last))
  }

  lemma {:induction false} CountAll(field: InputField, platform: Platform, ranges: seq<Range>)
    ensures Count(field, platform, ranges) > 0 <==> exists i | 0 <= i < |ranges| :: field.ExistsIn(platform, ranges[i])
    ensures Count(field, platform, ranges) < |ranges| <==> exists i | 0 <= i < |ranges| :: !field.ExistsIn(platform, ranges[i])
  {
    if ranges != [] {
      CountAll(field, platform, ranges[1..]);
      assert forall i | 0 < i < |ranges| :: ranges[i] == ranges[1..][i - 1];
    }
  }

  lemma {:induction false} AllowedStarts(versions: seq<Version>, ranges: seq<Range>, bound: Option<Version>)
    ensures BoundAllowed(versions, ranges, bound) <==> bound.Some? ==> StartsSegments(versions, ranges, bound.value)
  {
    if bound.Some? {
      forall i | 0 <= i < |ranges|
        ensures Before(ranges[i].first, bound.value) && AtMost(bound.value, ranges[i].last)
                <==> Number(ranges[i].first) < Number(bound.value) <= Number(ranges[i].last)
      {
        OrderedByNumber(ranges[i].first, bound.value);
        OrderedByNumber(bound.value, ranges[i].last);
      }
      hide Before, AtMost, Number;
    }
  }

  /** The bounds accepted: ascending everywhere; and, for a field on the platform, at the
      start of segments, leaving the field in some of them and out of others. */
  lemma {:induction false} AllowedExactly(versions: seq<Version>, platform: Platform, ranges: seq<Range>, field: InputField)
    ensures FieldAllowed(versions, platform, ranges, field) <==>
            var bounds := if platform == Stm32wb then field.wb else field.wba;
            && (bounds.since.Some? && bounds.before.Some? ==> Number(bounds.since.value) < Number(bounds.before.value))
            && (field.only in {None, Some(platform)} ==>
                  && (bounds.since.Some? ==> StartsSegments(versions, ranges, bounds.since.value))
                  && (bounds.before.Some? ==> StartsSegments(versions, ranges, bounds.before.value))
                  && (bounds.since.Some? || bounds.before.Some? ==>
                        && (exists i | 0 <= i < |ranges| :: field.ExistsIn(platform, ranges[i]))
                        && (exists i | 0 <= i < |ranges| :: !field.ExistsIn(platform, ranges[i]))))
  {
    var bounds := field.On(platform);
    CountAll(field, platform, ranges);
    AllowedStarts(versions, ranges, bounds.since);
    AllowedStarts(versions, ranges, bounds.before);
    if bounds.since.Some? && bounds.before.Some? {
      OrderedByNumber(bounds.since.value, bounds.before.value);
    }
    assert field.IsOn(platform) <==> field.only in {None, Some(platform)};
    assert bounds == if platform == Stm32wb then field.wb else field.wba;
    assert Ordered(bounds) <==>
           (bounds.since.Some? && bounds.before.Some? ==> Number(bounds.since.value) < Number(bounds.before.value));
    hide Number, Before, BoundAllowed, StartsSegments, Count, Ordered;
  }

  /** A field not split by a segment exists in a release exactly when it exists throughout
      the release's segment. */
  lemma {:induction false} ExistsThroughout(field: InputField, platform: Platform, ranges: seq<Range>, i: nat,
                                            version: Version)
    requires i < |ranges| && ranges[i].Contains(version)
    requires field.On(platform).since.Some? ==> !Inside(ranges, field.On(platform).since.value)
    requires field.On(platform).before.Some? ==> !Inside(ranges, field.On(platform).before.value)
    ensures field.ExistsIn(platform, ranges[i]) <==> field.ExistsAt(platform, version)
  {
    var since, before := field.On(platform).since, field.On(platform).before;
    if since.Some? {
      assert !(Before(ranges[i].first, since.value) && AtMost(since.value, ranges[i].last));
    }
    if before.Some? {
      assert !(Before(ranges[i].first, before.value) && AtMost(before.value, ranges[i].last));
    }
  }

  /** A field agrees with its segments in every known release. */
  ghost predicate NeverSplit(versions: seq<Version>, field: InputField, platform: Platform, ranges: seq<Range>) {
    forall i, version | 0 <= i < |ranges| && version in versions && ranges[i].Contains(version) ::
      field.ExistsIn(platform, ranges[i]) <==> field.ExistsAt(platform, version)
  }

  /** Refusing a bound inside a segment is exact: with ordered bounds at known releases, a
      field agrees with its segments in every release if and only if no bound is inside one. */
  lemma {:induction false} BoundsExact(versions: seq<Version>, field: InputField, platform: Platform,
                                       ranges: seq<Range>)
    requires field.IsOn(platform) && Ordered(field.On(platform))
    requires forall i | 0 <= i < |ranges| :: ranges[i].first in versions
    requires var bounds := field.On(platform);
             && (bounds.since.Some? ==> bounds.since.value in versions)
             && (bounds.before.Some? ==> bounds.before.value in versions)
    ensures NeverSplit(versions, field, platform, ranges) <==>
            var bounds := field.On(platform);
            && (bounds.since.Some? ==> !Inside(ranges, bounds.since.value))
            && (bounds.before.Some? ==> !Inside(ranges, bounds.before.value))
  {
    var since, before := field.On(platform).since, field.On(platform).before;
    if since.Some? && Inside(ranges, since.value) {
      var i :| 0 <= i < |ranges| && Before(ranges[i].first, since.value) && AtMost(since.value, ranges[i].last);
      assert ranges[i].Contains(since.value);
      assert field.ExistsAt(platform, since.value) && !field.ExistsIn(platform, ranges[i]);
    } else if before.Some? && Inside(ranges, before.value) {
      var i :| 0 <= i < |ranges| && Before(ranges[i].first, before.value) && AtMost(before.value, ranges[i].last);
      assert ranges[i].Contains(ranges[i].first);
      assert since.Some? ==> !(Before(ranges[i].first, since.value) && AtMost(since.value, ranges[i].last));
      assert field.ExistsAt(platform, ranges[i].first) && !field.ExistsIn(platform, ranges[i]);
    } else {
      forall i, version | 0 <= i < |ranges| && version in versions && ranges[i].Contains(version)
        ensures field.ExistsIn(platform, ranges[i]) <==> field.ExistsAt(platform, version)
      {
        ExistsThroughout(field, platform, ranges, i, version);
      }
    }
  }

  // ----- resolving variants

  /** What a declaration is generated from. */
  datatype Wire = Wire(opcode: u16, completion: Completion, params: seq<Field>, structs: Structs,
                       results: seq<Field>, resultStructs: Structs)

  datatype ResolvedLayout = ResolvedLayout(layout: LayoutFact, structs: Structs)

  /** A segment's command, resolved. */
  datatype Resolved = Resolved(scope: CommandScope, excluded: bool, profiles: seq<Profile>, opcode: u16,
                               completion: Completion, params: ResolvedLayout, results: Option<ResolvedLayout>)

  datatype Declaration = Declaration(key: seq<bool>, wire: Wire, releases: Range, targets: seq<Target>)

  /** The wire facts of a segment on a channel; none if it cannot be declared. */
  function WireOf(scope: CommandScope, entry: Resolved): Option<Wire> {
    if entry.scope != scope || entry.excluded || !entry.params.layout.Resolved? then None
    else match entry.results
      case None =>
        Some(Wire(entry.opcode, entry.completion, entry.params.layout.fields, entry.params.structs, [], entry.params.structs))
      case Some(results) =>
        if !results.layout.Resolved? then None
        else Some(Wire(entry.opcode, entry.completion, entry.params.layout.fields, entry.params.structs,
                       results.layout.fields, results.structs))
  }

  predicate Referenced(wire: Wire) {
    S.ReferencesExist(wire.params) && S.ReferencesExist(wire.results)
  }

  /** The two differ at most in what their members are called. */
  predicate SameWire(a: Wire, b: Wire)
    requires Referenced(a) && Referenced(b)
  {
    && a.opcode == b.opcode && a.completion == b.completion
    && a.structs == b.structs && a.resultStructs == b.resultStructs
    && S.SameLayout(a.params, b.params) && S.SameLayout(a.results, b.results)
  }

  lemma {:induction false} SameWireEquivalence(a: Wire, b: Wire, c: Wire)
    requires Referenced(a) && Referenced(b) && Referenced(c)
    ensures SameWire(a, a)
    ensures SameWire(a, b) ==> SameWire(b, a)
    ensures SameWire(a, b) && SameWire(b, c) ==> SameWire(a, c)
  {
    S.Equivalence(a.params, b.params, c.params);
    S.Equivalence(a.results, b.results, c.results);
  }

  /** Which fields exist throughout a range. */
  function KeyOf(fields: seq<InputField>, platform: Platform, releases: Range): (key: seq<bool>)
    ensures |key| == |fields|
    ensures forall j | 0 <= j < |fields| :: key[j] == fields[j].ExistsIn(platform, releases)
  {
    seq(|fields|, j requires 0 <= j < |fields| => fields[j].ExistsIn(platform, releases))
  }

  /** The segments with the same fields. */
  function WithKey(fields: seq<InputField>, platform: Platform, segments: seq<Ranged<Resolved>>,
                   key: seq<bool>): seq<Ranged<Resolved>> {
    if segments == [] then [] else
    var last := |segments| - 1;
    WithKey(fields, platform, segments[..last], key)
    + if KeyOf(fields, platform, segments[last].releases) == key then [segments[last]] else []
  }

  function TargetOf(segment: Ranged<Resolved>): Target {
    Target(segment.releases, segment.fact.profiles)
  }

  function TargetsOf(segments: seq<Ranged<Resolved>>): (targets: seq<Target>)
    ensures |targets| == |segments|
    ensures forall i | 0 <= i < |segments| :: targets[i] == TargetOf(segments[i])
  {
    seq(|segments|, i requires 0 <= i < |segments| => TargetOf(segments[i]))
  }

  function Earlier(a: Version, b: Version): Version {
    if Before(b, a) then b else a
  }

  function Later(a: Version, b: Version): Version {
    if Before(b, a) then a else b
  }

  function SpanOf(segments: seq<Ranged<Resolved>>): Range
    requires segments != []
  {
    var last := |segments| - 1;
    var releases := segments[last].releases;
    if last == 0 then releases else
    var span := SpanOf(segments[..last]);
    Range(Earlier(span.first, releases.first), Later(span.last, releases.last))
  }

  ghost predicate Declarable(scope: CommandScope, segments: seq<Ranged<Resolved>>) {
    forall i | 0 <= i < |segments| :: WireOf(scope, segments[i].fact).Some?
  }

  ghost predicate AllReferenced(scope: CommandScope, segments: seq<Ranged<Resolved>>) {
    forall i | 0 <= i < |segments| && WireOf(scope, segments[i].fact).Some? :: Referenced(WireOf(scope, segments[i].fact).value)
  }

  ghost predicate SameWires(scope: CommandScope, a: Resolved, b: Resolved) {
    var x, y := WireOf(scope, a), WireOf(scope, b);
    x.Some? && y.Some? && Referenced(x.value) && Referenced(y.value) && SameWire(x.value, y.value)
  }

  /** Segments with the same fields are the same on the wire. */
  ghost predicate Agreeing(fields: seq<InputField>, platform: Platform, scope: CommandScope,
                           segments: seq<Ranged<Resolved>>) {
    && Declarable(scope, segments)
    && forall i, j | 0 <= i < j < |segments|
                     && KeyOf(fields, platform, segments[i].releases) == KeyOf(fields, platform, segments[j].releases) ::
         SameWires(scope, segments[i].fact, segments[j].fact)
  }

  /** What a segment must be to be declared. */
  ghost predicate Declares(scope: CommandScope, entry: Resolved) {
    && entry.scope == scope && !entry.excluded && entry.params.layout.Resolved?
    && (entry.results.Some? ==> entry.results.value.layout.Resolved?)
  }

  /** Layouts with the same types position by position, counts and selectors at the same
      positions. */
  ghost predicate Alike(a: seq<Field>, b: seq<Field>) {
    S.ReferencesExist(a) && S.ReferencesExist(b) && S.SameLayout(a, b)
  }

  function FieldsIn(layout: ResolvedLayout): seq<Field> {
    match layout.layout
    case Resolved(fields) => fields
    case Unresolved(_) => []
  }

  /** Two entries are the same on the wire: their opcodes, completions, structures, and
      layouts; an entry without return parameters returns nothing. */
  ghost predicate WireAlike(a: Resolved, b: Resolved) {
    && a.opcode == b.opcode && a.completion == b.completion
    && a.params.structs == b.params.structs && Alike(FieldsIn(a.params), FieldsIn(b.params))
    && (match a.results case Some(results) => results.structs case None => a.params.structs)
       == (match b.results case Some(results) => results.structs case None => b.params.structs)
    && Alike(match a.results case Some(results) => FieldsIn(results) case None => [],
             match b.results case Some(results) => FieldsIn(results) case None => [])
  }

  lemma {:induction false} WiresAlike(scope: CommandScope, a: Resolved, b: Resolved)
    ensures WireOf(scope, a).Some? <==> Declares(scope, a)
    ensures SameWires(scope, a, b) <==> Declares(scope, a) && Declares(scope, b) && WireAlike(a, b)
  {
    hide S.ReferencesExist, S.SameLayout;
  }

  /** Segments can be declared together exactly if each is on the channel, not excluded, and
      has its layouts, and those in which the same fields exist are the same on the wire. */
  lemma {:induction false} AgreeingExactly(fields: seq<InputField>, platform: Platform, scope: CommandScope,
                                           segments: seq<Ranged<Resolved>>)
    ensures Agreeing(fields, platform, scope, segments) <==>
            && (forall i | 0 <= i < |segments| :: Declares(scope, segments[i].fact))
            && forall i, j | 0 <= i < j < |segments|
                             && (forall f | f in fields ::
                                   f.ExistsIn(platform, segments[i].releases) <==> f.ExistsIn(platform, segments[j].releases)) ::
                 WireAlike(segments[i].fact, segments[j].fact)
  {
    forall i, j | 0 <= i < j < |segments|
      ensures SameWires(scope, segments[i].fact, segments[j].fact) <==>
              Declares(scope, segments[i].fact) && Declares(scope, segments[j].fact)
              && WireAlike(segments[i].fact, segments[j].fact)
      ensures KeyOf(fields, platform, segments[i].releases) == KeyOf(fields, platform, segments[j].releases) <==>
              forall f | f in fields ::
                f.ExistsIn(platform, segments[i].releases) <==> f.ExistsIn(platform, segments[j].releases)
    {
      WiresAlike(scope, segments[i].fact, segments[j].fact);
      SameKeys(fields, platform, segments[i].releases, segments[j].releases);
    }
    forall i | 0 <= i < |segments| ensures WireOf(scope, segments[i].fact).Some? <==> Declares(scope, segments[i].fact) {
      WiresAlike(scope, segments[i].fact, segments[i].fact);
    }
    hide KeyOf, WireOf, SameWires, WireAlike, Declares;
  }

  lemma {:induction false} SameKeys(fields: seq<InputField>, platform: Platform, a: Range, b: Range)
    ensures KeyOf(fields, platform, a) == KeyOf(fields, platform, b) <==>
            forall f | f in fields :: f.ExistsIn(platform, a) <==> f.ExistsIn(platform, b)
  {
    if KeyOf(fields, platform, a) == KeyOf(fields, platform, b) {
      forall f | f in fields ensures f.ExistsIn(platform, a) <==> f.ExistsIn(platform, b) {
        var j :| 0 <= j < |fields| && fields[j] == f;
        assert KeyOf(fields, platform, a)[j] == KeyOf(fields, platform, b)[j];
      }
    }
  }

  /** A variant is made of the segments with its key, in order, named as the latest. */
  ghost predicate MadeOf(variant: Declaration, scope: CommandScope, members: seq<Ranged<Resolved>>) {
    && members != []
    && WireOf(scope, members[|members| - 1].fact) == Some(variant.wire)
    && variant.releases == SpanOf(members)
    && variant.targets == TargetsOf(members)
  }

  predicate HasKey(variants: seq<Declaration>, key: seq<bool>) {
    exists n | 0 <= n < |variants| :: variants[n].key == key
  }

  ghost predicate DistinctVariants(variants: seq<Declaration>) {
    forall n, m | 0 <= n < m < |variants| :: variants[n].key != variants[m].key
  }

  /** One variant for each key of a segment, made of the segments with the key. */
  ghost predicate Grouped(variants: seq<Declaration>, fields: seq<InputField>, platform: Platform,
                          scope: CommandScope, segments: seq<Ranged<Resolved>>)
  {
    && DistinctVariants(variants)
    && (forall n | 0 <= n < |variants| ::
          MadeOf(variants[n], scope, WithKey(fields, platform, segments, variants[n].key)))
    && (forall i | 0 <= i < |segments| :: HasKey(variants, KeyOf(fields, platform, segments[i].releases)))
  }

  lemma {:induction false} WithKeyContains(fields: seq<InputField>, platform: Platform,
                                           segments: seq<Ranged<Resolved>>, key: seq<bool>, segment: Ranged<Resolved>)
    ensures segment in WithKey(fields, platform, segments, key) <==>
            segment in segments && KeyOf(fields, platform, segment.releases) == key
  {
    if segments != [] {
      var last := |segments| - 1;
      WithKeyContains(fields, platform, segments[..last], key, segment);
      assert segments == segments[..last] + [segments[last]];
    }
  }

  lemma {:induction false} OneMoreSegment(fields: seq<InputField>, platform: Platform,
                                          segments: seq<Ranged<Resolved>>, segment: Ranged<Resolved>, key: seq<bool>)
    ensures WithKey(fields, platform, segments + [segment], key) ==
            if KeyOf(fields, platform, segment.releases) == key
            then WithKey(fields, platform, segments, key) + [segment]
            else WithKey(fields, platform, segments, key)
  {
    assert (segments + [segment])[..|segments|] == segments;
  }

  /** Every key had before, and the new segment's, is still had. */
  lemma {:induction false} KeysKept(before: seq<Declaration>, after: seq<Declaration>, fields: seq<InputField>,
                                    platform: Platform, segments: seq<Ranged<Resolved>>, segment: Ranged<Resolved>)
    requires forall i | 0 <= i < |segments| :: HasKey(before, KeyOf(fields, platform, segments[i].releases))
    requires forall key :: HasKey(before, key) ==> HasKey(after, key)
    requires HasKey(after, KeyOf(fields, platform, segment.releases))
    ensures forall i | 0 <= i < |segments + [segment]| ::
              HasKey(after, KeyOf(fields, platform, (segments + [segment])[i].releases))
  {
    hide HasKey, KeyOf;
    forall i | 0 <= i < |segments + [segment]|
      ensures HasKey(after, KeyOf(fields, platform, (segments + [segment])[i].releases))
    {
      if i < |segments| {
        assert HasKey(before, KeyOf(fields, platform, segments[i].releases));
      }
    }
  }

  /** The variant a segment starts, if none has its fields. */
  lemma {:induction false} StartVariant(variants: seq<Declaration>, fields: seq<InputField>, platform: Platform,
                                        scope: CommandScope, segments: seq<Ranged<Resolved>>,
                                        segment: Ranged<Resolved>, variant: Declaration)
    requires Grouped(variants, fields, platform, scope, segments)
    requires var key := KeyOf(fields, platform, segment.releases);
             && !HasKey(variants, key) && WireOf(scope, segment.fact) == Some(variant.wire)
             && variant == Declaration(key, variant.wire, segment.releases, [TargetOf(segment)])
    ensures Grouped(variants + [variant], fields, platform, scope, segments + [segment])
  {
    var key, after, all := variant.key, variants + [variant], segments + [segment];
    StartedMadeOf(variants, fields, platform, scope, segments, segment, variant);
    HasMore(variants, variant);
    KeysKept(variants, after, fields, platform, segments, segment);
    hide WithKey, MadeOf, KeyOf, WireOf;
    forall n | 0 <= n < |after| ensures MadeOf(after[n], scope, WithKey(fields, platform, all, after[n].key)) {
      if n < |variants| {
        OneMoreSegment(fields, platform, segments, segment, after[n].key);
        assert variants[n].key != key;
      }
    }
  }

  lemma {:induction false} HasMore(variants: seq<Declaration>, variant: Declaration)
    ensures forall key :: HasKey(variants, key) || key == variant.key ==> HasKey(variants + [variant], key)
  {
    var after := variants + [variant];
    assert after[|variants|].key == variant.key;
    forall key | HasKey(variants, key) ensures HasKey(after, key) {
      var n :| 0 <= n < |variants| && variants[n].key == key;
      assert after[n].key == key;
    }
  }

  lemma {:induction false} StartedMadeOf(variants: seq<Declaration>, fields: seq<InputField>, platform: Platform,
                                         scope: CommandScope, segments: seq<Ranged<Resolved>>,
                                         segment: Ranged<Resolved>, variant: Declaration)
    requires Grouped(variants, fields, platform, scope, segments)
    requires var key := KeyOf(fields, platform, segment.releases);
             && !HasKey(variants, key) && WireOf(scope, segment.fact) == Some(variant.wire)
             && variant == Declaration(key, variant.wire, segment.releases, [TargetOf(segment)])
    ensures MadeOf(variant, scope, WithKey(fields, platform, segments + [segment], variant.key))
  {
    var members := WithKey(fields, platform, segments, variant.key);
    OneMoreSegment(fields, platform, segments, segment, variant.key);
    if members != [] {
      WithKeyContains(fields, platform, segments, variant.key, members[0]);
    }
    hide WithKey, Grouped, HasKey, WireOf;
    assert TargetsOf([segment]) == [TargetOf(segment)];
  }

  function Joined(variant: Declaration, wire: Wire, segment: Ranged<Resolved>): Declaration {
    Declaration(variant.key, wire,
                Range(Earlier(variant.releases.first, segment.releases.first), Later(variant.releases.last, segment.releases.last)),
                variant.targets + [TargetOf(segment)])
  }

  lemma {:induction false} JoinedMadeOf(variant: Declaration, wire: Wire, scope: CommandScope,
                                        members: seq<Ranged<Resolved>>, segment: Ranged<Resolved>)
    requires MadeOf(variant, scope, members) && WireOf(scope, segment.fact) == Some(wire)
    ensures MadeOf(Joined(variant, wire, segment), scope, members + [segment])
  {
    assert (members + [segment])[..|members|] == members;
  }

  /** The variant a segment joins. */
  lemma {:induction false} JoinVariant(variants: seq<Declaration>, fields: seq<InputField>, platform: Platform,
                                       scope: CommandScope, segments: seq<Ranged<Resolved>>,
                                       segment: Ranged<Resolved>, n: nat, wire: Wire)
    requires Grouped(variants, fields, platform, scope, segments)
    requires n < |variants| && variants[n].key == KeyOf(fields, platform, segment.releases)
    requires WireOf(scope, segment.fact) == Some(wire)
    ensures Grouped(variants[n := Joined(variants[n], wire, segment)], fields, platform, scope, segments + [segment])
  {
    hide WithKey, MadeOf, KeyOf, WireOf, HasKey;
    var after, all := variants[n := Joined(variants[n], wire, segment)], segments + [segment];
    HasSame(variants, after);
    KeysKept(variants, after, fields, platform, segments, segment);
    OneMoreSegment(fields, platform, segments, segment, variants[n].key);
    JoinedMadeOf(variants[n], wire, scope, WithKey(fields, platform, segments, variants[n].key), segment);
    forall m | 0 <= m < |after| && m != n
      ensures variants[m].key != variants[n].key
      ensures MadeOf(after[m], scope, WithKey(fields, platform, all, after[m].key))
    {
      OneMoreSegment(fields, platform, segments, segment, variants[m].key);
    }
  }

  lemma {:induction false} HasSame(variants: seq<Declaration>, after: seq<Declaration>)
    requires |after| == |variants| && forall n | 0 <= n < |variants| :: after[n].key == variants[n].key
    ensures forall key :: HasKey(variants, key) ==> HasKey(after, key)
    ensures forall n | 0 <= n < |after| :: HasKey(after, variants[n].key)
  {
    forall key | HasKey(variants, key) ensures HasKey(after, key) {
      var n :| 0 <= n < |variants| && variants[n].key == key;
      assert after[n].key == key;
    }
    forall n | 0 <= n < |after| ensures HasKey(after, variants[n].key) {
      assert after[n].key == variants[n].key;
    }
  }

  /** A variant's facts are those of one of its segments. */
  lemma {:induction false} LatestMember(variants: seq<Declaration>, fields: seq<InputField>, platform: Platform,
                                        scope: CommandScope, segments: seq<Ranged<Resolved>>, n: nat) returns (i: nat)
    requires Grouped(variants, fields, platform, scope, segments) && n < |variants|
    ensures i < |segments| && KeyOf(fields, platform, segments[i].releases) == variants[n].key
    ensures WireOf(scope, segments[i].fact) == Some(variants[n].wire)
  {
    var members := WithKey(fields, platform, segments, variants[n].key);
    assert MadeOf(variants[n], scope, members);
    var member := members[|members| - 1];
    WithKeyContains(fields, platform, segments, variants[n].key, member);
    i :| 0 <= i < |segments| && segments[i] == member;
  }

  // ----- what a variant is made of

  /** A span holds its segments, and no release outside their ends. */
  lemma {:induction false} SpanEnds(segments: seq<Ranged<Resolved>>)
    requires segments != []
    ensures forall i | 0 <= i < |segments| ::
              && Number(SpanOf(segments).first) <= Number(segments[i].releases.first)
              && Number(segments[i].releases.last) <= Number(SpanOf(segments).last)
    ensures exists i | 0 <= i < |segments| :: segments[i].releases.first == SpanOf(segments).first
    ensures exists i | 0 <= i < |segments| :: segments[i].releases.last == SpanOf(segments).last
  {
    var last := |segments| - 1;
    if last > 0 {
      var rest, releases := segments[..last], segments[last].releases;
      SpanEnds(rest);
      OrderedByNumber(releases.first, SpanOf(rest).first);
      OrderedByNumber(releases.last, SpanOf(rest).last);
      hide Number, Before;
      assert forall i | 0 <= i < last :: segments[i] == rest[i];
      var a :| 0 <= a < last && rest[a].releases.first == SpanOf(rest).first;
      var b :| 0 <= b < last && rest[b].releases.last == SpanOf(rest).last;
      assert segments[a] == rest[a] && segments[b] == rest[b];
    }
  }

  lemma {:induction false} LastWithKey(fields: seq<InputField>, platform: Platform, segments: seq<Ranged<Resolved>>,
                                       key: seq<bool>)
    returns (i: nat)
    requires WithKey(fields, platform, segments, key) != []
    ensures var members := WithKey(fields, platform, segments, key);
            i < |segments| && segments[i] == members[|members| - 1] && KeyOf(fields, platform, segments[i].releases) == key
    ensures forall k | i < k < |segments| :: KeyOf(fields, platform, segments[k].releases) != key
  {
    hide KeyOf;
    var last := |segments| - 1;
    if KeyOf(fields, platform, segments[last].releases) == key {
      i := last;
    } else {
      i := LastWithKey(fields, platform, segments[..last], key);
      assert forall k | 0 <= k < last :: segments[..last][k] == segments[k];
    }
  }

  /** The opcode, completion, and members of an entry; none returned where it has no results. */
  predicate EncodedAs(wire: Wire, entry: Resolved) {
    && wire.opcode == entry.opcode && wire.completion == entry.completion
    && wire.params == FieldsIn(entry.params) && wire.structs == entry.params.structs
    && wire.results == (match entry.results case Some(results) => FieldsIn(results) case None => [])
  }

  lemma {:induction false} AsEntry(scope: CommandScope, entry: Resolved, wire: Wire)
    requires WireOf(scope, entry) == Some(wire)
    ensures EncodedAs(wire, entry)
  {
  }

  lemma {:induction false} VariantMembers(variants: seq<Declaration>, fields: seq<InputField>, platform: Platform,
                                          scope: CommandScope, segments: seq<Ranged<Resolved>>, n: nat)
    requires Grouped(variants, fields, platform, scope, segments) && n < |variants|
    ensures var members := WithKey(fields, platform, segments, variants[n].key);
            && members != [] && variants[n].releases == SpanOf(members)
            && WireOf(scope, members[|members| - 1].fact) == Some(variants[n].wire)
  {
    hide WithKey, KeyOf, WireOf, SpanOf, HasKey, DistinctVariants;
    assert MadeOf(variants[n], scope, WithKey(fields, platform, segments, variants[n].key));
  }

  /** A variant is named and encoded as the latest of its segments. */
  lemma {:induction false} MadeOfLatest(variants: seq<Declaration>, fields: seq<InputField>, platform: Platform,
                                        scope: CommandScope, segments: seq<Ranged<Resolved>>, n: nat)
    returns (i: nat)
    requires Grouped(variants, fields, platform, scope, segments) && n < |variants|
    ensures i < |segments| && KeyOf(fields, platform, segments[i].releases) == variants[n].key
    ensures forall k | i < k < |segments| :: KeyOf(fields, platform, segments[k].releases) != variants[n].key
    ensures EncodedAs(variants[n].wire, segments[i].fact)
  {
    hide *;
    var key := variants[n].key;
    VariantMembers(variants, fields, platform, scope, segments, n);
    i := LastWithKey(fields, platform, segments, key);
    AsEntry(scope, segments[i].fact, variants[n].wire);
  }

  /** A variant spans its segments, from the start of one to the end of one. */
  lemma {:induction false} MadeOfAll(variants: seq<Declaration>, fields: seq<InputField>, platform: Platform,
                                     scope: CommandScope, segments: seq<Ranged<Resolved>>, n: nat)
    requires Grouped(variants, fields, platform, scope, segments) && n < |variants|
    ensures forall k | 0 <= k < |segments| && KeyOf(fields, platform, segments[k].releases) == variants[n].key ::
              && Number(variants[n].releases.first) <= Number(segments[k].releases.first)
              && Number(segments[k].releases.last) <= Number(variants[n].releases.last)
    ensures exists segment | segment in segments :: segment.releases.first == variants[n].releases.first
    ensures exists segment | segment in segments :: segment.releases.last == variants[n].releases.last
  {
    hide *;
    var key := variants[n].key;
    var members := WithKey(fields, platform, segments, key);
    VariantMembers(variants, fields, platform, scope, segments, n);
    SpanEnds(members);
    forall k | 0 <= k < |segments| && KeyOf(fields, platform, segments[k].releases) == key
      ensures && Number(SpanOf(members).first) <= Number(segments[k].releases.first)
              && Number(segments[k].releases.last) <= Number(SpanOf(members).last)
    {
      WithKeyContains(fields, platform, segments, key, segments[k]);
      var m :| 0 <= m < |members| && members[m] == segments[k];
    }
    var a :| 0 <= a < |members| && members[a].releases.first == SpanOf(members).first;
    WithKeyContains(fields, platform, segments, key, members[a]);
    var b :| 0 <= b < |members| && members[b].releases.last == SpanOf(members).last;
    WithKeyContains(fields, platform, segments, key, members[b]);
  }

  /** One agreeing segment more, if it agrees with the variant of its key. */
  lemma {:induction false} StillAgreeing(fields: seq<InputField>, platform: Platform, scope: CommandScope,
                                         segments: seq<Ranged<Resolved>>, segment: Ranged<Resolved>, i: nat)
    requires AllReferenced(scope, segments + [segment]) && Agreeing(fields, platform, scope, segments)
    requires i < |segments| && KeyOf(fields, platform, segments[i].releases) == KeyOf(fields, platform, segment.releases)
    requires SameWires(scope, segments[i].fact, segment.fact)
    ensures Agreeing(fields, platform, scope, segments + [segment])
  {
    var all := segments + [segment];
    forall j | 0 <= j < |segments| && KeyOf(fields, platform, segments[j].releases) == KeyOf(fields, platform, segment.releases)
      ensures SameWires(scope, segments[j].fact, segment.fact)
    {
      var x, y, z := WireOf(scope, segments[j].fact), WireOf(scope, segments[i].fact), WireOf(scope, segment.fact);
      assert WireOf(scope, all[j].fact) == x;
      if j < i {
        assert SameWires(scope, segments[j].fact, segments[i].fact);
        SameWireEquivalence(x.value, y.value, z.value);
      } else if i < j {
        assert SameWires(scope, segments[i].fact, segments[j].fact);
        SameWireEquivalence(y.value, x.value, y.value);
        SameWireEquivalence(x.value, y.value, z.value);
      }
    }
  }

  lemma {:induction false} NewKeyAgreeing(fields: seq<InputField>, platform: Platform, scope: CommandScope,
                                          variants: seq<Declaration>, segments: seq<Ranged<Resolved>>,
                                          segment: Ranged<Resolved>)
    requires Agreeing(fields, platform, scope, segments) && Grouped(variants, fields, platform, scope, segments)
    requires WireOf(scope, segment.fact).Some? && !HasKey(variants, KeyOf(fields, platform, segment.releases))
    ensures Agreeing(fields, platform, scope, segments + [segment])
  {
    forall i | 0 <= i < |segments|
      ensures KeyOf(fields, platform, segments[i].releases) != KeyOf(fields, platform, segment.releases)
    {
      assert HasKey(variants, KeyOf(fields, platform, segments[i].releases));
    }
  }

  method FindKey(variants: seq<Declaration>, key: seq<bool>) returns (found: Option<nat>)
    ensures found.Some? ==> found.value < |variants| && variants[found.value].key == key
    ensures found.None? <==> !HasKey(variants, key)
  {
    for n := 0 to |variants|
      invariant forall m | 0 <= m < n :: variants[m].key != key
    {
      if variants[n].key == key {
        return Some(n);
      }
    }
    return None;
  }

  lemma {:induction false} NotDeclarable(fields: seq<InputField>, platform: Platform, scope: CommandScope,
                                         segments: seq<Ranged<Resolved>>, k: nat)
    requires k < |segments| && WireOf(scope, segments[k].fact).None?
    ensures !Agreeing(fields, platform, scope, segments)
  {
  }

  lemma {:induction false} NotSame(fields: seq<InputField>, platform: Platform, scope: CommandScope,
                                   segments: seq<Ranged<Resolved>>, i: nat, k: nat)
    requires i < k < |segments| && !SameWires(scope, segments[i].fact, segments[k].fact)
    requires KeyOf(fields, platform, segments[i].releases) == KeyOf(fields, platform, segments[k].releases)
    ensures !Agreeing(fields, platform, scope, segments)
  {
  }

  lemma {:induction false} WiresReferenced(scope: CommandScope, segments: seq<Ranged<Resolved>>, i: nat, k: nat, a: Wire, b: Wire)
    requires AllReferenced(scope, segments) && i < |segments| && k < |segments|
    requires WireOf(scope, segments[i].fact) == Some(a) && WireOf(scope, segments[k].fact) == Some(b)
    ensures Referenced(a) && Referenced(b)
    ensures SameWires(scope, segments[i].fact, segments[k].fact) <==> SameWire(a, b)
  {
  }

  lemma {:induction false} PrefixReferenced(scope: CommandScope, segments: seq<Ranged<Resolved>>, k: nat)
    requires AllReferenced(scope, segments) && k <= |segments|
    ensures AllReferenced(scope, segments[..k])
  {
  }

  lemma {:induction false} NothingGrouped(fields: seq<InputField>, platform: Platform, scope: CommandScope)
    ensures Agreeing(fields, platform, scope, []) && Grouped([], fields, platform, scope, [])
  {
  }

  /** Group segments into variants; none if a segment cannot be declared, or is not on the
      wire what its variant is. */
  method Resolve(fields: seq<InputField>, platform: Platform, scope: CommandScope, segments: seq<Ranged<Resolved>>)
    returns (result: Option<seq<Declaration>>)
    requires AllReferenced(scope, segments)
    ensures result.Some? <==> Agreeing(fields, platform, scope, segments)
    ensures result.Some? ==> Grouped(result.value, fields, platform, scope, segments)
  {
    var variants: seq<Declaration> := [];
    hide *;
    NothingGrouped(fields, platform, scope);
    assert segments[..0] == [];
    for k := 0 to |segments|
      invariant Agreeing(fields, platform, scope, segments[..k])
      invariant Grouped(variants, fields, platform, scope, segments[..k])
    {
      var segment := segments[k];
      assert segments[..k + 1] == segments[..k] + [segment];
      PrefixReferenced(scope, segments, k + 1);
      var wire := WireOf(scope, segment.fact);
      if wire.None? {
        NotDeclarable(fields, platform, scope, segments, k);
        return None;
      }
      var key := KeyOf(fields, platform, segment.releases);
      var found := FindKey(variants, key);
      if found.None? {
        var variant := Declaration(key, wire.value, segment.releases, [TargetOf(segment)]);
        StartVariant(variants, fields, platform, scope, segments[..k], segment, variant);
        NewKeyAgreeing(fields, platform, scope, variants, segments[..k], segment);
        variants := variants + [variant];
      } else {
        var n := found.value;
        ghost var i := LatestMember(variants, fields, platform, scope, segments[..k], n);
        assert segments[..k][i] == segments[i];
        WiresReferenced(scope, segments, i, k, variants[n].wire, wire.value);
        if !SameWire(variants[n].wire, wire.value) {
          NotSame(fields, platform, scope, segments, i, k);
          return None;
        }
        StillAgreeing(fields, platform, scope, segments[..k], segment, i);
        JoinVariant(variants, fields, platform, scope, segments[..k], segment, n, wire.value);
        variants := variants[n := Joined(variants[n], wire.value, segment)];
      }
    }
    assert segments[..|segments|] == segments;
    return Some(variants);
  }
}

/** The layout given to an accepted wrapper is the layout of what it sends. */
module WrapperSound {
  import opened Options
  import opened Bytes
  import opened Layout
  import opened CStructures
  import opened StructureFacts
  import opened UnionSizes
  import opened Wrapper
  import opened WrapperLayout
  import opened WrapperRun

  /** The parts of a resolved wrapper: the members, the steps writing them, and the fields
      of the layout, position by position. */
  ghost predicate Matched(members: seq<Member>, steps: seq<Step>, records: Records, sizes: Sizes, structs: Structs,
                          analysis: Analysis) {
    && Sized(records, structs)
    && |members| == |steps| && DistinctTargets(steps)
    && (forall j | 0 <= j < |members| :: steps[j].target == members[j].Written())
    && AnalysisOf(members, |members|, steps, records, sizes) == Some(analysis)
    && |analysis.fields| == |members|
    && ValidLayout(structs, analysis.fields)
    && forall k | 0 <= k < |analysis.fields| :: Defines(structs, analysis.fields[k])
  }

  lemma {:induction false} ResolvedMatched(views: seq<View>, nodes: seq<Node>, records: Records, sizes: Sizes,
                                           structs: Structs, analysis: Analysis)
    requires Resolves(views, nodes, records, sizes, structs, analysis)
    ensures Matched(MembersOf(records, views), Steps(views, nodes), records, sizes, structs, analysis)
  {
    hide ValidLayout, StepsOf, Relevant, Built, WellSized, AcyclicRecords, Acyclic;
    var members, steps := MembersOf(records, views), Steps(views, nodes);
    assert |TargetsOf(steps)| == |MemberTargets(members)|;
    forall j | 0 <= j < |members| ensures steps[j].target == members[j].Written() {
      assert TargetsOf(steps)[j] == MemberTargets(members)[j];
    }
    AnalysisLength(members, |members|, steps, records, sizes);
  }

  /** Running the wrapper writes every member of its structures exactly once, in order,
      and adds up its increments. */
  lemma {:induction false} WritesEveryMemberOnce(views: seq<View>, nodes: seq<Node>, records: Records, sizes: Sizes,
      structs: Structs, analysis: Analysis, env: Env)
    requires Resolves(views, nodes, records, sizes, structs, analysis)
    ensures var members, steps := MembersOf(records, views), Steps(views, nodes);
            && Run(views, nodes, env, sizes) == State(MemberTargets(members), TotalAdded(steps, |steps|, env, sizes))
            && |members| == |analysis.fields|
            && forall j | 0 <= j < |members| :: analysis.fields[j].name == members[j].field.name
    ensures forall i, j | 0 <= i < j < |MembersOf(records, views)| ::
              Run(views, nodes, env, sizes).written[i] != Run(views, nodes, env, sizes).written[j]
  {
    ResolvedMatched(views, nodes, records, sizes, structs, analysis);
    RunRelevant(views, nodes, env, sizes);
    RunSteps(views, Relevant(views, nodes), env, sizes);
    var members, steps := MembersOf(records, views), Steps(views, nodes);
    hide Run, TotalAdded, Relevant, StepsOf, Analyzed, ValidLayout, Sized, AnalysisOf;
    forall j | 0 <= j < |members| ensures analysis.fields[j].name == members[j].field.name {
      NamedAsMember(members, steps, records, sizes, structs, analysis, j);
    }
    assert TargetsOf(steps) == MemberTargets(members);
    forall i, j | 0 <= i < j < |members| ensures TargetsOf(steps)[i] != TargetsOf(steps)[j] {
      assert steps[i].target != steps[j].target;
    }
  }

  lemma {:induction false} NamedAsMember(members: seq<Member>, steps: seq<Step>, records: Records, sizes: Sizes,
                                         structs: Structs, analysis: Analysis, k: nat)
    requires Matched(members, steps, records, sizes, structs, analysis) && k < |members|
    ensures analysis.fields[k].name == members[k].field.name
    ensures members[k].field.ty.CScalar? <==> analysis.fields[k].ty.ScalarField?
    ensures members[k].field.ty.CScalar? ==> analysis.fields[k].ty == ScalarField(members[k].field.ty.scalar)
    ensures members[k].field.ty.CScalar? ==> steps[k].write.Assigned?
  {
    hide ValidLayout, AnalysisOf, DistinctTargets, Definable, Built, WellSized, AcyclicRecords, Acyclic;
    FieldTyped(members, steps, records, sizes, k, analysis);
  }

  lemma {:induction false} NamesDistinct(members: seq<Member>, steps: seq<Step>, records: Records, sizes: Sizes,
                                         structs: Structs, analysis: Analysis)
    requires Matched(members, steps, records, sizes, structs, analysis)
    ensures DistinctMembers(members)
  {
    forall i, j | 0 <= i < j < |members| ensures members[i].field.name != members[j].field.name {
      NamedAsMember(members, steps, records, sizes, structs, analysis, i);
      NamedAsMember(members, steps, records, sizes, structs, analysis, j);
      assert ValidMember(structs, analysis.fields, j);
    }
  }

  /** The parameter a member refers to through its count or selector. */
  function Referred(step: Step, sizes: Sizes): Option<string> {
    match step.increment
    case Some(Length(Parameter(name), _)) => Some(name)
    case Some(Length(Local(variable), _)) =>
      if variable in sizes && UnionVariants(sizes[variable]).Some?
      then Some(UnionVariants(sizes[variable]).value.selector)
      else None
    case _ => None
  }

  /** The count or selector a member refers to is an earlier unsigned member, which the
      wrapper assigns the very parameter its length depends on. */
  lemma {:induction false} ReferenceHolds(members: seq<Member>, steps: seq<Step>, records: Records, sizes: Sizes,
                                          structs: Structs, analysis: Analysis, k: nat)
    returns (j: nat)
    requires Matched(members, steps, records, sizes, structs, analysis) && k < |members|
    requires analysis.fields[k].ty.Reference().Some?
    ensures Referred(steps[k], sizes).Some?
    ensures j < k && HolderAt(members, steps, j, Referred(steps[k], sizes).value, analysis.fields[k].ty.Reference().value)
    ensures !members[j].field.ty.scalar.IsSigned()
  {
    hide AnalysisOf, DistinctTargets, ValidLayout, Definable, Built, WellSized, AcyclicRecords, Acyclic;
    var field := analysis.fields[k];
    FieldTyped(members, steps, records, sizes, k, analysis);
    var before := AnalysisOf(members, k, steps, records, sizes).value;
    var parameter := ReferredStored(members[k], steps[k], before, field, records, sizes);
    StoredHeld(members, steps, k, records, sizes, parameter);
    j :| 0 <= j < k && HolderAt(members, steps, j, parameter, field.ty.Reference().value);
    NamedAsMember(members, steps, records, sizes, structs, analysis, j);
    UnsignedReference(structs, analysis.fields, k, j);
  }

  lemma {:induction false} UnsignedReference(structs: Structs, fields: seq<Field>, k: nat, j: nat)
    requires Acyclic(structs) && ValidLayout(structs, fields) && j < k < |fields|
    requires fields[k].ty.Reference() == Some(fields[j].name)
    ensures fields[j].ty.ScalarField? && !fields[j].ty.scalar.IsSigned()
  {
    assert ValidMember(structs, fields, k);
    var i :| 0 <= i < k && fields[i].name == fields[j].name && fields[i].ty.ScalarField? && !fields[i].ty.scalar.IsSigned();
    assert ValidMember(structs, fields, i) && ValidMember(structs, fields, j);
  }

  lemma {:induction false} ReferredStored(member: Member, step: Step, before: Analysis, field: Field,
                                          records: Records, sizes: Sizes)
    returns (parameter: string)
    requires AcyclicRecords(records) && TypedBy(member, step, before, field, records, sizes) && field.ty.Reference().Some?
    ensures Referred(step, sizes) == Some(parameter)
    ensures parameter in before.stored && before.stored[parameter] == field.ty.Reference().value
  {
    hide Definable;
    parameter := Referred(step, sizes).value;
  }

  // ----- what each member's increment and size are

  /** A step copies as many bytes as a local `size` says. */
  predicate CopiesSize(step: Step, sizes: Sizes) {
    step.increment.Some? && step.increment.value.count.Local? && step.increment.value.count.variable in sizes
  }

  function CodeOf(step: Step, sizes: Sizes): SizeCode
    requires CopiesSize(step, sizes)
  {
    sizes[step.increment.value.count.variable]
  }

  /** By how much a member's increment exceeds its encoded size: the part of its count lost
      where it is stored, in elements; or what its union's code copies beyond the alternative
      the stored selector chooses. Negative if the increment falls short. */
  ghost function Excess(step: Step, field: Field, structs: Structs, known: map<string, int>, sizes: Sizes, env: Env): int
    requires Acyclic(structs)
  {
    match field.ty
    case CountedField(element, count, _) =>
      if Referred(step, sizes).Some? && count in known
      then (Argument(env, Referred(step, sizes).value) - known[count]) * WidthOr0(ElementWidth(structs, element))
      else 0
    case UnionField(selector, variants) =>
      if CopiesSize(step, sizes) && selector in known
      then SizeIn(CodeOf(step, sizes), env.args) * step.increment.value.unit - ChosenWidth(variants, known[selector])
      else 0
    case _ => 0
  }

  /** A member's increment is its encoded size: its count argument is held whole, or its
      elements are empty; its union is copied with the width its stored selector chooses. */
  ghost predicate IncrementIsSize(step: Step, field: Field, structs: Structs, known: map<string, int>, sizes: Sizes,
                                  env: Env)
    requires Acyclic(structs)
  {
    match field.ty
    case CountedField(element, count, _) =>
      && Referred(step, sizes).Some? && count in known
      && (known[count] == Argument(env, Referred(step, sizes).value) || WidthOr0(ElementWidth(structs, element)) == 0)
    case UnionField(selector, variants) =>
      && CopiesSize(step, sizes) && selector in known
      && SizeIn(CodeOf(step, sizes), env.args) * step.increment.value.unit == ChosenWidth(variants, known[selector])
    case _ => true
  }

  lemma {:induction false} Scaled(a: int, b: int, w: nat)
    ensures b * w == a * w + (b - a) * w
    ensures (b - a) * w == 0 <==> a == b || w == 0
  {
    if a != b && w != 0 {
      Nonzero(b - a, w);
    }
  }

  lemma {:induction false} Nonzero(d: int, w: nat)
    requires d != 0 && w != 0
    ensures d * w != 0
  {
  }

  lemma {:induction false} CountedExcess(members: seq<Member>, steps: seq<Step>, records: Records, sizes: Sizes,
                                         structs: Structs, analysis: Analysis, env: Env, k: nat)
    requires Matched(members, steps, records, sizes, structs, analysis) && k < |members| && analysis.fields[k].ty.CountedField?
    ensures var known, field := Known(members, steps, |members|, env), analysis.fields[k];
            && Added(steps[k].increment, env, sizes)
               == MemberSize(structs, field.ty, known) + Excess(steps[k], field, structs, known, sizes, env)
            && (Excess(steps[k], field, structs, known, sizes, env) == 0
                <==> IncrementIsSize(steps[k], field, structs, known, sizes, env))
  {
    hide AnalysisOf, DistinctTargets, ValidLayout, Definable, Built, WellSized, AcyclicRecords, Known, TypedBy, StructWidth, Acyclic;
    var field := analysis.fields[k];
    FieldTyped(members, steps, records, sizes, k, analysis);
    FieldIsValid(structs, analysis.fields, k);
    var parameter := CountedIncrement(records, structs, members[k], steps[k],
                                      AnalysisOf(members, k, steps, records, sizes).value, field, sizes, env);
    var j := ReferenceHolds(members, steps, records, sizes, structs, analysis, k);
    NamesDistinct(members, steps, records, sizes, structs, analysis);
    KnownValue(members, steps, j, |members|, env);
    Scaled(Truncated(members[j].field.ty.scalar, Argument(env, parameter)), Argument(env, parameter),
           WidthOr0(ElementWidth(structs, field.ty.element)));
  }

  lemma {:induction false} FieldIsValid(structs: Structs, fields: seq<Field>, k: nat)
    requires Acyclic(structs) && ValidLayout(structs, fields) && k < |fields|
    ensures ValidType(structs, fields[k].ty)
  {
    assert ValidMember(structs, fields, k);
  }

  lemma {:induction false} UnionExcess(members: seq<Member>, steps: seq<Step>, records: Records, sizes: Sizes,
                                       structs: Structs, analysis: Analysis, env: Env, k: nat)
    requires Matched(members, steps, records, sizes, structs, analysis) && k < |members| && analysis.fields[k].ty.UnionField?
    ensures var known, field := Known(members, steps, |members|, env), analysis.fields[k];
            && Added(steps[k].increment, env, sizes)
               == MemberSize(structs, field.ty, known) + Excess(steps[k], field, structs, known, sizes, env)
            && (Excess(steps[k], field, structs, known, sizes, env) == 0
                <==> IncrementIsSize(steps[k], field, structs, known, sizes, env))
  {
    hide AnalysisOf, DistinctTargets, ValidLayout, Definable, Built, WellSized, AcyclicRecords, Known, TypedBy, StructWidth, Acyclic;
    var field := analysis.fields[k];
    FieldTyped(members, steps, records, sizes, k, analysis);
    var code := UnionIncrement(records, members[k], steps[k], AnalysisOf(members, k, steps, records, sizes).value, field, sizes, env);
    var j := ReferenceHolds(members, steps, records, sizes, structs, analysis, k);
    NamesDistinct(members, steps, records, sizes, structs, analysis);
    KnownValue(members, steps, j, |members|, env);
  }

  lemma {:induction false} MemberExcess(members: seq<Member>, steps: seq<Step>, records: Records, sizes: Sizes,
                                        structs: Structs, analysis: Analysis, env: Env, k: nat)
    requires Matched(members, steps, records, sizes, structs, analysis) && k < |members|
    ensures var known, field := Known(members, steps, |members|, env), analysis.fields[k];
            && Added(steps[k].increment, env, sizes)
               == MemberSize(structs, field.ty, known) + Excess(steps[k], field, structs, known, sizes, env)
            && (Excess(steps[k], field, structs, known, sizes, env) == 0
                <==> IncrementIsSize(steps[k], field, structs, known, sizes, env))
  {
    hide AnalysisOf, DistinctTargets, ValidLayout, Definable, Built, WellSized, AcyclicRecords, Known, TypedBy, StructWidth, Acyclic;
    if analysis.fields[k].ty.CountedField? {
      CountedExcess(members, steps, records, sizes, structs, analysis, env, k);
    } else if analysis.fields[k].ty.UnionField? {
      UnionExcess(members, steps, records, sizes, structs, analysis, env, k);
    } else {
      FieldTyped(members, steps, records, sizes, k, analysis);
      FieldIsValid(structs, analysis.fields, k);
      FixedIncrement(records, structs, members[k], steps[k], AnalysisOf(members, k, steps, records, sizes).value, analysis.fields[k],
                     sizes, env, Known(members, steps, |members|, env));
    }
  }

  /** The excesses of the first `k` members together. */
  ghost function TotalExcess(steps: seq<Step>, fields: seq<Field>, k: nat, structs: Structs, known: map<string, int>,
                             sizes: Sizes, env: Env): int
    requires Acyclic(structs) && k <= |fields| == |steps|
  {
    if k == 0 then 0 else
    TotalExcess(steps, fields, k - 1, structs, known, sizes, env)
    + Excess(steps[k - 1], fields[k - 1], structs, known, sizes, env)
  }

  lemma {:induction false} ExcessAddsUp(members: seq<Member>, steps: seq<Step>, records: Records, sizes: Sizes,
                                        structs: Structs, analysis: Analysis, env: Env, k: nat)
    requires Matched(members, steps, records, sizes, structs, analysis) && k <= |members|
    ensures var known := Known(members, steps, |members|, env);
            TotalAdded(steps, k, env, sizes) == EncodedSize(structs, analysis.fields, k, known)
                                                + TotalExcess(steps, analysis.fields, k, structs, known, sizes, env)
  {
    hide AnalysisOf, DistinctTargets, ValidLayout, Sized, Known, IncrementIsSize, Excess, Added, MemberSize;
    if k > 0 {
      MemberExcess(members, steps, records, sizes, structs, analysis, env, k - 1);
      ExcessAddsUp(members, steps, records, sizes, structs, analysis, env, k - 1);
    }
  }

  lemma {:induction false} NoneExceeds(steps: seq<Step>, fields: seq<Field>, k: nat, structs: Structs,
                                       known: map<string, int>, sizes: Sizes, env: Env)
    requires Acyclic(structs) && k <= |fields| == |steps|
    requires forall j | 0 <= j < k :: Excess(steps[j], fields[j], structs, known, sizes, env) >= 0
    ensures TotalExcess(steps, fields, k, structs, known, sizes, env) >= 0
    ensures TotalExcess(steps, fields, k, structs, known, sizes, env) == 0 <==>
            forall j | 0 <= j < k :: Excess(steps[j], fields[j], structs, known, sizes, env) == 0
  {
    hide Excess, Acyclic;
    if k > 0 {
      NoneExceeds(steps, fields, k - 1, structs, known, sizes, env);
    }
  }

  lemma {:induction false} NoExcess(steps: seq<Step>, fields: seq<Field>, k: nat, structs: Structs,
                                    known: map<string, int>, sizes: Sizes, env: Env)
    requires Acyclic(structs) && k <= |fields| == |steps|
    requires forall j | 0 <= j < k :: Excess(steps[j], fields[j], structs, known, sizes, env) == 0
    ensures TotalExcess(steps, fields, k, structs, known, sizes, env) == 0
  {
    hide Excess, Acyclic;
    if k > 0 {
      NoExcess(steps, fields, k - 1, structs, known, sizes, env);
    }
  }

  /** For every call, the final `index_input` differs from the encoded size of the layout,
      under what the members hold, by what counts lose where they are stored and what unions
      are copied beyond the alternative chosen: none of it is checked. It is the encoded size
      exactly if that adds up to nothing; and where no member falls short, exactly if every
      count is held whole and every union is copied with its chosen width. */
  lemma {:induction false} IndexIsEncodedSize(views: seq<View>, nodes: seq<Node>, records: Records, sizes: Sizes,
                                              structs: Structs, analysis: Analysis, env: Env)
    requires Resolves(views, nodes, records, sizes, structs, analysis)
    requires |MembersOf(records, views)| == |Steps(views, nodes)|
    ensures var members, steps, fields := MembersOf(records, views), Steps(views, nodes), analysis.fields;
            var known := Known(members, steps, |members|, env);
            var index := Run(views, nodes, env, sizes).index;
            && |fields| == |members|
            && index == EncodedSize(structs, fields, |fields|, known)
                        + TotalExcess(steps, fields, |fields|, structs, known, sizes, env)
            && (forall j | 0 <= j < |fields| ::
                  Excess(steps[j], fields[j], structs, known, sizes, env) == 0
                  <==> IncrementIsSize(steps[j], fields[j], structs, known, sizes, env))
            && ((forall j | 0 <= j < |fields| :: IncrementIsSize(steps[j], fields[j], structs, known, sizes, env)) ==>
                index == EncodedSize(structs, fields, |fields|, known))
            && ((forall j | 0 <= j < |fields| :: Excess(steps[j], fields[j], structs, known, sizes, env) >= 0) ==>
                (index == EncodedSize(structs, fields, |fields|, known) <==>
                 forall j | 0 <= j < |fields| :: IncrementIsSize(steps[j], fields[j], structs, known, sizes, env)))
  {
    ResolvedMatched(views, nodes, records, sizes, structs, analysis);
    WritesEveryMemberOnce(views, nodes, records, sizes, structs, analysis, env);
    var members, steps := MembersOf(records, views), Steps(views, nodes);
    var known := Known(members, steps, |members|, env);
    hide *;
    ExcessAddsUp(members, steps, records, sizes, structs, analysis, env, |members|);
    forall j | 0 <= j < |members|
      ensures Excess(steps[j], analysis.fields[j], structs, known, sizes, env) == 0
              <==> IncrementIsSize(steps[j], analysis.fields[j], structs, known, sizes, env)
    {
      MemberExcess(members, steps, records, sizes, structs, analysis, env, j);
    }
    if forall j | 0 <= j < |members| :: Excess(steps[j], analysis.fields[j], structs, known, sizes, env) == 0 {
      NoExcess(steps, analysis.fields, |members|, structs, known, sizes, env);
    }
    if forall j | 0 <= j < |members| :: Excess(steps[j], analysis.fields[j], structs, known, sizes, env) >= 0 {
      NoneExceeds(steps, analysis.fields, |members|, structs, known, sizes, env);
    }
  }

  // ----- calls that fall short nowhere

  /** Counts are not negative, selectors fit the members storing them, and sizes are copied
      in units of at least one byte, from code whose cases do not fall through. */
  ghost predicate Ordinary(members: seq<Member>, steps: seq<Step>, sizes: Sizes, env: Env)
    requires |members| == |steps|
  {
    forall k | 0 <= k < |steps| && Referred(steps[k], sizes).Some? :: OrdinaryStep(members, steps, k, sizes, env)
  }

  ghost predicate OrdinaryStep(members: seq<Member>, steps: seq<Step>, k: nat, sizes: Sizes, env: Env)
    requires k < |members| == |steps| && Referred(steps[k], sizes).Some?
  {
    var parameter := Referred(steps[k], sizes).value;
    && (steps[k].increment.value.count.Parameter? ==> Argument(env, parameter) >= 0)
    && (CopiesSize(steps[k], sizes) ==>
          && steps[k].increment.value.unit >= 1 && Straight(CodeOf(steps[k], sizes))
          && forall j, name | 0 <= j < k && HolderAt(members, steps, j, parameter, name) ::
               members[j].field.ty.scalar.Holds(Argument(env, parameter)))
  }

  lemma {:induction false} ScaledUp(a: int, b: int, w: nat)
    requires 0 <= a <= b
    ensures (b - a) * w >= 0
  {
  }

  lemma {:induction false} CountedNotShort(members: seq<Member>, steps: seq<Step>, records: Records, sizes: Sizes,
                                           structs: Structs, analysis: Analysis, env: Env, k: nat)
    requires Matched(members, steps, records, sizes, structs, analysis) && k < |members| && analysis.fields[k].ty.CountedField?
    requires Ordinary(members, steps, sizes, env)
    ensures Excess(steps[k], analysis.fields[k], structs, Known(members, steps, |members|, env), sizes, env) >= 0
  {
    hide AnalysisOf, DistinctTargets, ValidLayout, Definable, Built, WellSized, AcyclicRecords, Known, TypedBy, StructWidth, Acyclic;
    var field := analysis.fields[k];
    FieldTyped(members, steps, records, sizes, k, analysis);
    FieldIsValid(structs, analysis.fields, k);
    var parameter := CountedIncrement(records, structs, members[k], steps[k],
                                      AnalysisOf(members, k, steps, records, sizes).value, field, sizes, env);
    var j := ReferenceHolds(members, steps, records, sizes, structs, analysis, k);
    NamesDistinct(members, steps, records, sizes, structs, analysis);
    KnownValue(members, steps, j, |members|, env);
    assert OrdinaryStep(members, steps, k, sizes, env);
    TruncatedAtMost(members[j].field.ty.scalar, Argument(env, parameter));
    ScaledUp(Truncated(members[j].field.ty.scalar, Argument(env, parameter)), Argument(env, parameter),
             WidthOr0(ElementWidth(structs, field.ty.element)));
  }

  /** A union whose selector is held whole, and whose code does not fall through, is copied
      with its chosen width times the unit. */
  lemma {:induction false} UnionCopied(members: seq<Member>, steps: seq<Step>, records: Records, sizes: Sizes,
                                       structs: Structs, analysis: Analysis, env: Env, k: nat)
    requires Matched(members, steps, records, sizes, structs, analysis) && k < |members| && analysis.fields[k].ty.UnionField?
    requires CopiesSize(steps[k], sizes) ==> Straight(CodeOf(steps[k], sizes))
    requires forall parameter, j, name | Referred(steps[k], sizes) == Some(parameter) && 0 <= j < k
                                         && HolderAt(members, steps, j, parameter, name) ::
               members[j].field.ty.scalar.Holds(Argument(env, parameter))
    ensures var known := Known(members, steps, |members|, env);
            && CopiesSize(steps[k], sizes) && analysis.fields[k].ty.selector in known
            && SizeIn(CodeOf(steps[k], sizes), env.args)
               == ChosenWidth(analysis.fields[k].ty.variants, known[analysis.fields[k].ty.selector])
  {
    hide AnalysisOf, DistinctTargets, ValidLayout, Definable, Built, WellSized, AcyclicRecords, Known, TypedBy, StructWidth, Acyclic, Straight;
    var field := analysis.fields[k];
    FieldTyped(members, steps, records, sizes, k, analysis);
    var code := UnionIncrement(records, members[k], steps[k], AnalysisOf(members, k, steps, records, sizes).value, field, sizes, env);
    var j := ReferenceHolds(members, steps, records, sizes, structs, analysis, k);
    NamesDistinct(members, steps, records, sizes, structs, analysis);
    KnownValue(members, steps, j, |members|, env);
    var selector := UnionVariants(code).value.selector;
    assert Referred(steps[k], sizes) == Some(selector);
    HeldWhole(members[j].field.ty.scalar, Argument(env, selector));
    HeldIsTag(members[j].field.ty.scalar, Argument(env, selector));
    SizeIsChosen(code, env.args);
  }

  lemma {:induction false} HeldIsTag(scalar: Scalar, n: int)
    requires !scalar.IsSigned() && scalar.Holds(n)
    ensures 0 <= n < 0x1_0000_0000_0000_0000
  {
    PowersOfTheScalars();
  }

  lemma {:induction false} UnionHasSize(members: seq<Member>, steps: seq<Step>, records: Records, sizes: Sizes,
                                        structs: Structs, analysis: Analysis, env: Env, k: nat)
    requires Matched(members, steps, records, sizes, structs, analysis) && k < |members| && analysis.fields[k].ty.UnionField?
    ensures CopiesSize(steps[k], sizes)
  {
    hide AnalysisOf, DistinctTargets, ValidLayout, Definable, Built, WellSized, AcyclicRecords, TypedBy, Acyclic;
    FieldTyped(members, steps, records, sizes, k, analysis);
    var code := UnionIncrement(records, members[k], steps[k], AnalysisOf(members, k, steps, records, sizes).value,
                               analysis.fields[k], sizes, env);
  }

  lemma {:induction false} UnionNotShort(members: seq<Member>, steps: seq<Step>, records: Records, sizes: Sizes,
                                         structs: Structs, analysis: Analysis, env: Env, k: nat)
    requires Matched(members, steps, records, sizes, structs, analysis) && k < |members| && analysis.fields[k].ty.UnionField?
    requires Ordinary(members, steps, sizes, env)
    ensures Excess(steps[k], analysis.fields[k], structs, Known(members, steps, |members|, env), sizes, env) >= 0
  {
    hide AnalysisOf, DistinctTargets, ValidLayout, Definable, Built, WellSized, AcyclicRecords, Known, StructWidth, Acyclic, Straight;
    var j := ReferenceHolds(members, steps, records, sizes, structs, analysis, k);
    assert OrdinaryStep(members, steps, k, sizes, env);
    UnionHasSize(members, steps, records, sizes, structs, analysis, env, k);
    UnionCopied(members, steps, records, sizes, structs, analysis, env, k);
    var unit, size := steps[k].increment.value.unit, SizeIn(CodeOf(steps[k], sizes), env.args);
    Scaled(1, unit, size);
    ScaledUp(1, unit, size);
  }

  /** No member of an ordinary call falls short: there, `index_input` is the encoded size
      exactly if every count is held whole and every union is copied with its chosen width. */
  lemma {:induction false} NeverShort(members: seq<Member>, steps: seq<Step>, records: Records, sizes: Sizes,
                                      structs: Structs, analysis: Analysis, env: Env, k: nat)
    requires Matched(members, steps, records, sizes, structs, analysis) && k < |members|
    requires Ordinary(members, steps, sizes, env)
    ensures Excess(steps[k], analysis.fields[k], structs, Known(members, steps, |members|, env), sizes, env) >= 0
  {
    if analysis.fields[k].ty.CountedField? {
      CountedNotShort(members, steps, records, sizes, structs, analysis, env, k);
    } else if analysis.fields[k].ty.UnionField? {
      UnionNotShort(members, steps, records, sizes, structs, analysis, env, k);
    }
  }

  // ----- the usual wrapper

  /** Every parameter assigned fits its member. */
  ghost predicate Plain(members: seq<Member>, steps: seq<Step>, env: Env)
    requires |members| == |steps|
  {
    forall j, parameter, name | 0 <= j < |members| && HolderAt(members, steps, j, parameter, name) ::
      members[j].field.ty.scalar.Holds(Argument(env, parameter))
  }

  /** Unions are copied in bytes, with sizes whose code does not fall through. */
  ghost predicate UnitCopies(steps: seq<Step>, sizes: Sizes) {
    forall k | 0 <= k < |steps| && CopiesSize(steps[k], sizes) ::
      steps[k].increment.value.unit == 1 && Straight(CodeOf(steps[k], sizes))
  }

  lemma {:induction false} PlainIncrement(members: seq<Member>, steps: seq<Step>, records: Records, sizes: Sizes,
                                          structs: Structs, analysis: Analysis, env: Env, k: nat)
    requires Matched(members, steps, records, sizes, structs, analysis) && k < |members|
    requires Plain(members, steps, env) && UnitCopies(steps, sizes)
    ensures IncrementIsSize(steps[k], analysis.fields[k], structs, Known(members, steps, |members|, env), sizes, env)
  {
    hide AnalysisOf, DistinctTargets, ValidLayout, Definable, Built, WellSized, AcyclicRecords, Acyclic, Known, Plain, Straight;
    var field := analysis.fields[k];
    if field.ty.CountedField? {
      var j := ReferenceHolds(members, steps, records, sizes, structs, analysis, k);
      NamesDistinct(members, steps, records, sizes, structs, analysis);
      KnownValue(members, steps, j, |members|, env);
      PlainHolder(members, steps, env, j, Referred(steps[k], sizes).value, field.ty.count);
      HeldWhole(members[j].field.ty.scalar, Argument(env, Referred(steps[k], sizes).value));
    } else if field.ty.UnionField? {
      forall parameter, j, name | Referred(steps[k], sizes) == Some(parameter) && 0 <= j < k
                                  && HolderAt(members, steps, j, parameter, name)
        ensures members[j].field.ty.scalar.Holds(Argument(env, parameter))
      {
        PlainHolder(members, steps, env, j, parameter, name);
      }
      UnionCopied(members, steps, records, sizes, structs, analysis, env, k);
    }
  }

  lemma {:induction false} PlainHolder(members: seq<Member>, steps: seq<Step>, env: Env, j: nat, parameter: string,
                                       name: string)
    requires |members| == |steps| && Plain(members, steps, env) && j < |members| && HolderAt(members, steps, j, parameter, name)
    ensures members[j].field.ty.scalar.Holds(Argument(env, parameter))
  {
  }

  /** If the arguments fit their members and unions are copied in bytes, with sizes whose
      code does not fall through, then for all such arguments the wrapper counts exactly the
      bytes its layout encodes to. */
  lemma {:induction false} CountsItsBytes(views: seq<View>, nodes: seq<Node>, records: Records, sizes: Sizes,
                                          structs: Structs, analysis: Analysis, env: Env)
    requires Resolves(views, nodes, records, sizes, structs, analysis)
    requires |MembersOf(records, views)| == |Steps(views, nodes)|
    requires Plain(MembersOf(records, views), Steps(views, nodes), env) && UnitCopies(Steps(views, nodes), sizes)
    ensures Run(views, nodes, env, sizes).index ==
            EncodedSize(structs, analysis.fields, |analysis.fields|,
                        Known(MembersOf(records, views), Steps(views, nodes), |MembersOf(records, views)|, env))
  {
    ResolvedMatched(views, nodes, records, sizes, structs, analysis);
    IndexIsEncodedSize(views, nodes, records, sizes, structs, analysis, env);
    var members, steps := MembersOf(records, views), Steps(views, nodes);
    hide *;
    forall j | 0 <= j < |members|
      ensures IncrementIsSize(steps[j], analysis.fields[j], structs, Known(members, steps, |members|, env), sizes, env)
    {
      PlainIncrement(members, steps, records, sizes, structs, analysis, env, j);
    }
  }
}

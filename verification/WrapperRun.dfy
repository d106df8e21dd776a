/** What an accepted wrapper does when it runs: it writes every member of its parameters
    once, in order, and counts their encoded size. */
module WrapperRun {
  import opened Options
  import opened Bytes
  import opened Layout
  import opened CStructures
  import opened StructureFacts
  import opened UnionSizes
  import opened Wrapper
  import opened WrapperLayout

  // ----- running a wrapper

  /** The arguments of a call, and the values of the other expressions assigned. */
  datatype Env = Env(args: map<string, int>, other: Target -> int)

  function Argument(env: Env, name: string): int {
    Given(env.args, name)
  }

  function CountValue(count: Count, env: Env, sizes: Sizes): int {
    match count
    case Constant(n) => n
    case Parameter(name) => Argument(env, name)
    case Local(variable) => if variable in sizes then SizeIn(sizes[variable], env.args) else 0
    case _ => 0
  }

  function Amount(length: Length, env: Env, sizes: Sizes): int {
    CountValue(length.count, env, sizes) * length.unit
  }

  function Added(length: Option<Length>, env: Env, sizes: Sizes): int {
    if length.Some? then Amount(length.value, env, sizes) else 0
  }

  /** The members written so far, in order, and `index_input`. */
  datatype State = State(written: seq<Target>, index: int)

  function Executed(views: seq<View>, node: Node, env: Env, sizes: Sizes, before: State): State {
    match node
    case Writing(target, _) => if IsView(views, target.view) then State(before.written + [target], before.index) else before
    case Increment(length) => State(before.written, before.index + Added(length, env, sizes))
    case Other => before
  }

  /** The state after running the wrapper's statements. */
  function Run(views: seq<View>, nodes: seq<Node>, env: Env, sizes: Sizes): State {
    if nodes == [] then State([], 0) else
    var last := |nodes| - 1;
    Executed(views, nodes[last], env, sizes, Run(views, nodes[..last], env, sizes))
  }

  function TotalAdded(steps: seq<Step>, k: nat, env: Env, sizes: Sizes): int
    requires k <= |steps|
  {
    if k == 0 then 0 else TotalAdded(steps, k - 1, env, sizes) + Added(steps[k - 1].increment, env, sizes)
  }

  lemma {:induction false} RunAppend(views: seq<View>, nodes: seq<Node>, node: Node, env: Env, sizes: Sizes)
    ensures Run(views, nodes + [node], env, sizes) == Executed(views, node, env, sizes, Run(views, nodes, env, sizes))
  {
    assert (nodes + [node])[..|nodes|] == nodes;
  }

  lemma {:induction false} RunRelevant(views: seq<View>, nodes: seq<Node>, env: Env, sizes: Sizes)
    ensures Run(views, nodes, env, sizes) == Run(views, Relevant(views, nodes), env, sizes)
    ensures forall k | 0 <= k < |Relevant(views, nodes)| :: Matters(views, Relevant(views, nodes)[k])
  {
    if nodes != [] {
      var last := |nodes| - 1;
      RunRelevant(views, nodes[..last], env, sizes);
      RunAppend(views, Relevant(views, nodes[..last]), nodes[last], env, sizes);
    }
  }

  lemma {:induction false} TotalPrefix(a: seq<Step>, b: seq<Step>, k: nat, env: Env, sizes: Sizes)
    requires k <= |a| && k <= |b| && forall j | 0 <= j < k :: a[j] == b[j]
    ensures TotalAdded(a, k, env, sizes) == TotalAdded(b, k, env, sizes)
  {
    if k > 0 {
      TotalPrefix(a, b, k - 1, env, sizes);
    }
  }

  lemma {:induction false} OneStepMore(views: seq<View>, nodes: seq<Node>, before: seq<Step>, step: Step, env: Env,
                                       sizes: Sizes)
    requires Run(views, nodes, env, sizes) == State(TargetsOf(before), TotalAdded(before, |before|, env, sizes))
    requires IsView(views, step.target.view)
    ensures var steps := before + [step];
            Run(views, nodes + [Writing(step.target, step.write)] + [Increment(step.increment)], env, sizes)
            == State(TargetsOf(steps), TotalAdded(steps, |steps|, env, sizes))
  {
    var steps := before + [step];
    RunAppend(views, nodes, Writing(step.target, step.write), env, sizes);
    RunAppend(views, nodes + [Writing(step.target, step.write)], Increment(step.increment), env, sizes);
    TotalPrefix(steps, before, |before|, env, sizes);
    hide Run, Added;
    assert TargetsOf(steps) == TargetsOf(before) + [step.target];
  }

  lemma {:induction false} LastStep(nodes: seq<Node>)
    requires StepsOf(nodes).Some? && nodes != []
    ensures var n, steps := |nodes|, StepsOf(nodes).value;
            && n >= 2 && steps != []
            && StepsOf(nodes[..n - 2]) == Some(steps[..|steps| - 1])
            && nodes == nodes[..n - 2] + [Writing(steps[|steps| - 1].target, steps[|steps| - 1].write)]
                        + [Increment(steps[|steps| - 1].increment)]
  {
  }

  lemma {:induction false} RunSteps(views: seq<View>, nodes: seq<Node>, env: Env, sizes: Sizes)
    requires StepsOf(nodes).Some? && forall k | 0 <= k < |nodes| :: Matters(views, nodes[k])
    ensures var steps := StepsOf(nodes).value;
            Run(views, nodes, env, sizes) == State(TargetsOf(steps), TotalAdded(steps, |steps|, env, sizes))
  {
    if nodes == [] {
      assert TargetsOf([]) == [];
    } else {
      hide Run, StepsOf, TotalAdded, IsView;
      var n, steps := |nodes|, StepsOf(nodes).value;
      LastStep(nodes);
      RunSteps(views, nodes[..n - 2], env, sizes);
      assert Matters(views, nodes[n - 2]);
      OneStepMore(views, nodes[..n - 2], steps[..|steps| - 1], steps[|steps| - 1], env, sizes);
      assert steps == steps[..|steps| - 1] + [steps[|steps| - 1]];
    }
  }

  // ----- what the members hold

  /** An integer kept in a scalar: what is left of it. */
  function Truncated(scalar: Scalar, n: int): int {
    var left := n % Power(scalar.Width());
    if scalar.IsSigned() && 2 * left >= Power(scalar.Width()) then left - Power(scalar.Width()) else left
  }

  /** What is kept is a value of the scalar, and differs by a multiple of its range. */
  lemma {:induction false} TruncatedModulo(scalar: Scalar, n: int)
    ensures scalar.Holds(Truncated(scalar, n))
    ensures exists m :: n == m * Power(scalar.Width()) + Truncated(scalar, n)
  {
    PowersOfTheScalars();
    var power := Power(scalar.Width());
    Division(n, power);
    hide Power;
    var left := n % power;
    if Truncated(scalar, n) == left {
      assert n == (n / power) * power + left;
    } else {
      Distribute(n / power, power);
      assert n == (n / power + 1) * power + (left - power);
    }
  }

  lemma {:induction false} Distribute(a: int, power: int)
    ensures (a + 1) * power == a * power + power
  {
  }

  lemma {:induction false} HeldWhole(scalar: Scalar, n: int)
    requires scalar.Holds(n)
    ensures Truncated(scalar, n) == n
  {
    PowersOfTheScalars();
    var power := Power(scalar.Width());
    if n < 0 {
      WrapOnce(n, power);
    } else {
      Small(n, power);
    }
  }

  lemma {:induction false} Small(n: int, power: int)
    requires 0 <= n < power
    ensures n % power == n
  {
  }

  /** An unsigned scalar never holds more than was stored. */
  lemma {:induction false} TruncatedAtMost(scalar: Scalar, n: int)
    requires !scalar.IsSigned() && n >= 0
    ensures 0 <= Truncated(scalar, n) <= n
  {
    PowersOfTheScalars();
    var power := Power(scalar.Width());
    Quotient(n, power);
  }

  lemma {:induction false} Quotient(n: int, power: int)
    requires n >= 0 && power > 0
    ensures 0 <= n % power <= n
  {
    if n < power {
    } else {
      assert n % power < power;
    }
  }

  function ValueOf(step: Step, env: Env): int {
    if step.write.Assigned? && step.write.parameter.Some? then Argument(env, step.write.parameter.value)
    else env.other(step.target)
  }

  /** The integers the first `k` members hold after the run. */
  function Known(members: seq<Member>, steps: seq<Step>, k: nat, env: Env): map<string, int>
    requires k <= |members| == |steps|
  {
    if k == 0 then map[] else
    var before := Known(members, steps, k - 1, env);
    var field := members[k - 1].field;
    if field.ty.CScalar? && steps[k - 1].write.Assigned?
    then before[field.name := Truncated(field.ty.scalar, ValueOf(steps[k - 1], env))]
    else before
  }

  predicate DistinctMembers(members: seq<Member>) {
    forall i, j | 0 <= i < j < |members| :: members[i].field.name != members[j].field.name
  }

  lemma {:induction false} KnownValue(members: seq<Member>, steps: seq<Step>, j: nat, k: nat, env: Env)
    requires j < k <= |members| == |steps| && DistinctMembers(members)
    requires members[j].field.ty.CScalar? && steps[j].write.Assigned?
    ensures members[j].field.name in Known(members, steps, k, env)
    ensures Known(members, steps, k, env)[members[j].field.name] == Truncated(members[j].field.ty.scalar, ValueOf(steps[j], env))
  {
    if j < k - 1 {
      KnownValue(members, steps, j, k - 1, env);
    }
  }

  // ----- the encoded size of a layout

  /** The bytes a member takes, given the integers other members hold. */
  function MemberSize(structs: Structs, ty: FieldType, known: map<string, int>): int
    requires Acyclic(structs)
  {
    match ty
    case ScalarField(scalar) => scalar.Width()
    case StructField(name) => WidthOr0(StructWidth(structs, name))
    case ArrayField(element, len) => WidthOr0(ElementWidth(structs, element)) * len
    case CountedField(element, count, _) => if count in known then known[count] * WidthOr0(ElementWidth(structs, element)) else 0
    case UnionField(selector, variants) => if selector in known then ChosenWidth(variants, known[selector]) else 0
    case OptionalField(_) => 0
  }

  /** The encoded size of the first `k` members. */
  function EncodedSize(structs: Structs, fields: seq<Field>, k: nat, known: map<string, int>): int
    requires Acyclic(structs) && k <= |fields|
  {
    if k == 0 then 0 else EncodedSize(structs, fields, k - 1, known) + MemberSize(structs, fields[k - 1].ty, known)
  }

  // ----- the analysis, member by member

  /** A resolved wrapper, with what its analysis gave. */
  ghost predicate Resolves(views: seq<View>, nodes: seq<Node>, records: Records, sizes: Sizes, structs: Structs,
                           analysis: Analysis) {
    && AcyclicRecords(records) && WellSized(records) && Built(records, structs) && Acyclic(structs)
    && Accepted(views, nodes, records, sizes) && Analyzed(views, nodes, records, sizes) == Some(analysis)
    && ValidLayout(structs, analysis.fields)
    && forall k | 0 <= k < |analysis.fields| :: Defines(structs, analysis.fields[k])
  }

  lemma {:induction false} AnalysisLength(members: seq<Member>, k: nat, steps: seq<Step>, records: Records,
                                          sizes: Sizes)
    requires AcyclicRecords(records) && k <= |members| && AnalysisOf(members, k, steps, records, sizes).Some?
    ensures |AnalysisOf(members, k, steps, records, sizes).value.fields| == k
  {
    if k > 0 {
      AnalysisLength(members, k - 1, steps, records, sizes);
      hide TypeOf, FindStep;
    }
  }

  lemma {:induction false} AnalysisGrows(members: seq<Member>, j: nat, k: nat, steps: seq<Step>, records: Records,
                                         sizes: Sizes)
    requires AcyclicRecords(records) && j <= k <= |members| && AnalysisOf(members, k, steps, records, sizes).Some?
    ensures AnalysisOf(members, j, steps, records, sizes).Some?
    ensures AnalysisOf(members, j, steps, records, sizes).value.fields <= AnalysisOf(members, k, steps, records, sizes).value.fields
  {
    if j < k {
      AnalysisGrows(members, j, k - 1, steps, records, sizes);
      hide TypeOf, FindStep;
    }
  }

  lemma {:induction false} OwnStep(steps: seq<Step>, k: nat)
    requires DistinctTargets(steps) && k < |steps|
    ensures FindStep(steps, steps[k].target) == Some(steps[k])
  {
    FindStepFinds(steps, steps[k].target);
    var found := FindStep(steps, steps[k].target);
    var i :| 0 <= i < |steps| && steps[i] == found.value;
  }

  /** The `k`th member's field is typed from the `k`th write and its increment. */
  ghost predicate TypedBy(member: Member, step: Step, before: Analysis, field: Field, records: Records, sizes: Sizes)
    requires AcyclicRecords(records)
  {
    && step.target == member.Written() && step.increment.Some?
    && var typed := TypeOf(member.field, step.write, step.increment.value, records, before.stored, sizes, Previous(before.fields));
    && typed.Some? && field == Field(member.field.name, typed.value.ty)
  }

  lemma {:induction false} AnalysisStep(members: seq<Member>, k: nat, steps: seq<Step>, records: Records, sizes: Sizes)
    requires AcyclicRecords(records) && k < |members| && AnalysisOf(members, k + 1, steps, records, sizes).Some?
    ensures var before := AnalysisOf(members, k, steps, records, sizes);
            before.Some?
            && AnalysisOf(members, k + 1, steps, records, sizes) == AddMember(before.value, members[k], steps, records, sizes)
  {
    hide AddMember;
  }

  /** What adding a member adds. */
  lemma {:induction false} AddedTyped(before: Analysis, member: Member, step: Step, steps: seq<Step>, records: Records, sizes: Sizes)
    requires AcyclicRecords(records) && AddMember(before, member, steps, records, sizes).Some?
    requires step.target == member.Written() && FindStep(steps, member.Written()) == Some(step)
    ensures var after := AddMember(before, member, steps, records, sizes).value;
            && |after.fields| == |before.fields| + 1
            && TypedBy(member, step, before, after.fields[|before.fields|], records, sizes)
  {
    hide TypeOf, FindStep;
  }

  lemma {:induction false} FieldTyped(members: seq<Member>, steps: seq<Step>, records: Records, sizes: Sizes, k: nat,
                                      analysis: Analysis)
    requires AcyclicRecords(records) && |members| == |steps| && DistinctTargets(steps)
    requires forall j | 0 <= j < |members| :: steps[j].target == members[j].Written()
    requires AnalysisOf(members, |members|, steps, records, sizes) == Some(analysis) && k < |members|
    ensures |analysis.fields| == |members|
    ensures var before := AnalysisOf(members, k, steps, records, sizes);
            before.Some? && TypedBy(members[k], steps[k], before.value, analysis.fields[k], records, sizes)
  {
    hide *;
    AnalysisLength(members, |members|, steps, records, sizes);
    AnalysisGrows(members, k + 1, |members|, steps, records, sizes);
    AnalysisStep(members, k, steps, records, sizes);
    AnalysisLength(members, k, steps, records, sizes);
    OwnStep(steps, k);
    var before := AnalysisOf(members, k, steps, records, sizes).value;
    AddedTyped(before, members[k], steps[k], steps, records, sizes);
  }

  /** A parameter's member holds the parameter. */
  ghost predicate Holder(members: seq<Member>, steps: seq<Step>, k: nat, parameter: string, name: string)
    requires k <= |members| == |steps|
  {
    exists j | 0 <= j < k :: HolderAt(members, steps, j, parameter, name)
  }

  predicate HolderAt(members: seq<Member>, steps: seq<Step>, j: nat, parameter: string, name: string)
    requires j < |members| == |steps|
  {
    && members[j].field.name == name && members[j].field.ty.CScalar?
    && steps[j].write == Assigned(Some(parameter))
  }

  lemma {:induction false} StoredHeld(members: seq<Member>, steps: seq<Step>, k: nat, records: Records, sizes: Sizes,
                                      parameter: string)
    requires AcyclicRecords(records) && k <= |members| == |steps| && DistinctTargets(steps)
    requires forall j | 0 <= j < |members| :: steps[j].target == members[j].Written()
    requires AnalysisOf(members, k, steps, records, sizes).Some?
    requires parameter in AnalysisOf(members, k, steps, records, sizes).value.stored
    ensures Holder(members, steps, k, parameter, AnalysisOf(members, k, steps, records, sizes).value.stored[parameter])
  {
    if k > 0 {
      hide FindStep, DistinctTargets, FixedTypeOf, BufferTypeOf, UnionTypeOf;
      var before := AnalysisOf(members, k - 1, steps, records, sizes).value;
      var name := AnalysisOf(members, k, steps, records, sizes).value.stored[parameter];
      OwnStep(steps, k - 1);
      if steps[k - 1].write == Assigned(Some(parameter)) {
        assert HolderAt(members, steps, k - 1, parameter, name);
      } else {
        StoredHeld(members, steps, k - 1, records, sizes, parameter);
        var j :| 0 <= j < k - 1 && HolderAt(members, steps, j, parameter, name);
      }
    }
  }

  // ----- what each increment is worth

  ghost predicate Sized(records: Records, structs: Structs)
  {
    AcyclicRecords(records) && WellSized(records) && Built(records, structs) && Acyclic(structs)
  }

  lemma {:induction false} ElementSize(records: Records, structs: Structs, element: CType)
    requires Sized(records, structs) && ElementOf(element).Some? && SizeOfElement(records, element).Some?
    requires element.CRecordType? ==> element.name in structs
    requires ElementWidth(structs, ElementOf(element).value).Some?
    ensures ElementWidth(structs, ElementOf(element).value).value == SizeOfElement(records, element).value
  {
    if element.CRecordType? {
      WidthIsSize(records, structs, element.name);
    }
  }

  /** A member whose size does not depend on other members. */
  lemma {:induction false} FixedIncrement(records: Records, structs: Structs, member: Member, step: Step,
                                          before: Analysis, field: Field, sizes: Sizes, env: Env,
                                          known: map<string, int>)
    requires Sized(records, structs) && TypedBy(member, step, before, field, records, sizes)
    requires Defines(structs, field) && ValidType(structs, field.ty)
    requires field.ty.Reference().None?
    ensures Added(step.increment, env, sizes) == MemberSize(structs, field.ty, known)
  {
    hide StructWidth, Definable, Built;
    match member.field.ty {
      case CScalar(scalar) =>
      case CRecordType(name) =>
        WidthIsSize(records, structs, name);
      case CArray(element, len, capacity) =>
        ElementSize(records, structs, element);
      case _ =>
    }
  }

  /** What a counted member's increment is worth: the count argument, times the width. */
  ghost predicate CountedBy(member: Member, step: Step, field: Field, structs: Structs, parameter: string, env: Env,
                            sizes: Sizes)
    requires Acyclic(structs)
  {
    && field.ty.CountedField? && step.increment.Some? && step.increment.value.count == Parameter(parameter)
    && Added(step.increment, env, sizes) == Argument(env, parameter) * WidthOr0(ElementWidth(structs, field.ty.element))
  }

  lemma {:induction false} CountedIncrement(records: Records, structs: Structs, member: Member, step: Step,
                                            before: Analysis, field: Field, sizes: Sizes, env: Env)
    returns (parameter: string)
    requires Sized(records, structs) && TypedBy(member, step, before, field, records, sizes)
    requires Defines(structs, field) && ValidType(structs, field.ty) && field.ty.CountedField?
    ensures CountedBy(member, step, field, structs, parameter, env, sizes)
    ensures parameter in before.stored && before.stored[parameter] == field.ty.count
  {
    hide StructWidth, Definable, Built;
    parameter := step.increment.value.count.name;
    if field.ty.element != IntegerElement(U8) || step.increment.value.unit != 1 {
      ElementSize(records, structs, member.field.ty.element);
    }
  }

  /** What a union's increment is worth: the size its code gives, times the unit. */
  ghost predicate ChosenBy(step: Step, field: Field, code: SizeCode, env: Env, sizes: Sizes) {
    && field.ty.UnionField? && step.increment.Some?
    && UnionVariants(code).Some? && field.ty.variants == UnionVariants(code).value.variants
    && Added(step.increment, env, sizes) == SizeIn(code, env.args) * step.increment.value.unit
  }

  lemma {:induction false} UnionIncrement(records: Records, member: Member, step: Step, before: Analysis,
                                          field: Field, sizes: Sizes, env: Env)
    returns (code: SizeCode)
    requires AcyclicRecords(records) && TypedBy(member, step, before, field, records, sizes) && field.ty.UnionField?
    ensures ChosenBy(step, field, code, env, sizes)
    ensures var selector := UnionVariants(code).value.selector;
            selector in before.stored && before.stored[selector] == field.ty.selector
    ensures step.increment.Some? && step.increment.value.count.Local? && step.increment.value.count.variable in sizes
    ensures sizes[step.increment.value.count.variable] == code
  {
    hide Definable;
    code := sizes[step.increment.value.count.variable];
  }
}

/** The layout an accepted wrapper is given
    (crates/stm32wb-catalog-extract/src/commands.rs). */
module WrapperLayout {
  import opened Options
  import opened Layout
  import opened CStructures
  import opened UnionSizes
  import opened Wrapper

  // ----- the members the wrapper must write

  /** A member of the structure a view has. */
  datatype Member = Member(variable: string, field: CField) {
    function Written(): Target {
      Target(variable, field.name)
    }
  }

  predicate Numbered(views: seq<View>) {
    forall k | 0 <= k < |views| :: views[k].index == k
  }

  predicate PartDeclared(records: Records, view: View) {
    view.record in records && !records[view.record].isUnion && records[view.record].packed
  }

  predicate PartsDeclared(records: Records, views: seq<View>) {
    forall k | 0 <= k < |views| :: PartDeclared(records, views[k])
  }

  function PartMembers(records: Records, view: View): (members: seq<Member>)
    requires PartDeclared(records, view)
    ensures |members| == |records[view.record].fields|
    ensures forall k | 0 <= k < |members| :: members[k] == Member(view.variable, records[view.record].fields[k])
  {
    var fields := records[view.record].fields;
    seq(|fields|, k requires 0 <= k < |fields| => Member(view.variable, fields[k]))
  }

  /** Every member of every part, in structure order. */
  function MembersOf(records: Records, views: seq<View>): seq<Member>
    requires PartsDeclared(records, views)
  {
    if views == [] then [] else
    var last := |views| - 1;
    MembersOf(records, views[..last]) + PartMembers(records, views[last])
  }

  function MemberTargets(members: seq<Member>): (targets: seq<Target>)
    ensures |targets| == |members|
    ensures forall k | 0 <= k < |members| :: targets[k] == members[k].Written()
  {
    seq(|members|, k requires 0 <= k < |members| => members[k].Written())
  }

  // ----- the type of one member

  datatype Proven = Proven(count: string, buffer: string, adjacent: bool)

  /** A member's type, the count relationship it proves, and whether its count is of
      bytes where its C elements are wider. */
  datatype Typed = Typed(ty: FieldType, proven: Option<Proven>, byteCounted: bool)

  /** The size of an array element. */
  function SizeOfElement(records: Records, element: CType): Option<nat> {
    match element
    case CScalar(scalar) => Some(scalar.Width())
    case CRecordType(name) => if name in records then Some(records[name].size) else None
    case _ => None
  }

  type Stored = map<string, string>

  /** The code of every local `size`. */
  type Sizes = map<string, SizeCode>

  predicate Wider(variants: seq<Variant>, size: nat) {
    exists i | 0 <= i < |variants| :: variants[i].width > size
  }

  /** A union copied with the size chosen for it. */
  function UnionTypeOf(size: nat, copied: Length, stored: Stored, sizes: Sizes): Option<Typed> {
    if !copied.count.Local? || copied.count.variable !in sizes then None else
    var union := UnionVariants(sizes[copied.count.variable]);
    if union.None? || union.value.selector !in stored || Wider(union.value.variants, size) then None
    else Some(Typed(UnionField(stored[union.value.selector], union.value.variants), None, false))
  }

  /** A variable buffer copied with a length a parameter counts. */
  ghost function BufferTypeOf(field: CField, width: nat, copied: Length, records: Records, stored: Stored,
                              previous: Option<string>): Option<Typed>
    requires AcyclicRecords(records) && field.ty.CArray?
  {
    if !copied.count.Parameter? || copied.count.name !in stored || copied.unit < 0 then None else
    var count := stored[copied.count.name];
    var proven := Some(Proven(count, field.name, previous == Some(count)));
    if copied.unit == width then
      if !MayHold(records, field.ty) || ElementOf(field.ty.element).None? || field.ty.len >= 0x1_0000 then None
      else Some(Typed(CountedField(ElementOf(field.ty.element).value, count, field.ty.len), proven, false))
    else if copied.unit == 1 && width * field.ty.len < 0x1_0000 then
      Some(Typed(CountedField(IntegerElement(U8), count, width * field.ty.len), proven, true))
    else None
  }

  ghost function FixedTypeOf(ty: CType, records: Records): Option<Typed>
    requires AcyclicRecords(records)
  {
    if MayHold(records, ty) && FixedType(ty).Some? then Some(Typed(FixedType(ty).value, None, false)) else None
  }

  /** The type of a member written and incremented so. */
  ghost function TypeOf(field: CField, write: Write, increment: Length, records: Records, stored: Stored,
                        sizes: Sizes, previous: Option<string>): Option<Typed>
    requires AcyclicRecords(records)
  {
    match (field.ty, write)
    case (CScalar(scalar), Assigned(_)) =>
      if increment == Fixed(scalar.Width()) then Some(Typed(ScalarField(scalar), None, false)) else None
    case (CRecordType(name), Copied(length)) =>
      if name !in records || length != Some(increment) then None
      else if records[name].isUnion then UnionTypeOf(records[name].size, increment, stored, sizes)
      else if increment != Fixed(records[name].size) then None
      else FixedTypeOf(field.ty, records)
    case (CArray(element, len, capacity), Copied(length)) =>
      var width := SizeOfElement(records, element);
      if width.None? || length != Some(increment) then None
      else if capacity then BufferTypeOf(field, width.value, increment, records, stored, previous)
      else if increment != Fixed(width.value * len) then None
      else FixedTypeOf(field.ty, records)
    case _ => None
  }

  method UnionType(size: nat, copied: Length, stored: Stored, sizes: Sizes) returns (result: Option<Typed>)
    ensures result == UnionTypeOf(size, copied, stored, sizes)
    ensures copied.count.Local? && copied.count.variable in sizes ==>
              var read := UnionVariants(sizes[copied.count.variable]);
              read.Some? && read.value.selector in stored ==>
                && (result.Some? <==> forall i | 0 <= i < |read.value.variants| :: read.value.variants[i].width <= size)
                && (result.Some? ==> result.value.ty == UnionField(stored[read.value.selector], read.value.variants))
  {
    if !copied.count.Local? || copied.count.variable !in sizes {
      return None;
    }
    var found := FindVariants(sizes[copied.count.variable]);
    if found.None? || found.value.selector !in stored {
      return None;
    }
    var union := found.value;
    for i := 0 to |union.variants|
      invariant forall j | 0 <= j < i :: union.variants[j].width <= size
    {
      if union.variants[i].width > size {
        return None;
      }
    }
    return Some(Typed(UnionField(stored[union.selector], union.variants), None, false));
  }

  method BufferType(field: CField, width: nat, copied: Length, records: Records, stored: Stored,
                    previous: Option<string>, table: Table)
    returns (result: Option<Typed>)
    requires AcyclicRecords(records) && field.ty.CArray? && Built(records, table.structs)
    modifies table
    ensures Built(records, table.structs) && Keeps(old(table.structs), table.structs)
    ensures result == BufferTypeOf(field, width, copied, records, stored, previous)
    ensures result.Some? && result.value.ty.Structure().Some? ==> result.value.ty.Structure().value in table.structs
  {
    hide Definable, Built, AcyclicRecords;
    if !copied.count.Parameter? || copied.count.name !in stored || copied.unit < 0 {
      return None;
    }
    var count := stored[copied.count.name];
    var proven := Some(Proven(count, field.name, previous == Some(count)));
    if copied.unit == width {
      var element := table.ElementType(field.ty.element, records);
      if element.None? || field.ty.len >= 0x1_0000 {
        return None;
      }
      return Some(Typed(CountedField(element.value, count, field.ty.len), proven, false));
    }
    if copied.unit == 1 && width * field.ty.len < 0x1_0000 {
      return Some(Typed(CountedField(IntegerElement(U8), count, width * field.ty.len), proven, true));
    }
    return None;
  }

  method FixedMember(ty: CType, records: Records, table: Table) returns (result: Option<Typed>)
    requires AcyclicRecords(records) && Built(records, table.structs)
    modifies table
    ensures Built(records, table.structs) && Keeps(old(table.structs), table.structs)
    ensures result == FixedTypeOf(ty, records)
    ensures result.Some? && result.value.ty.Structure().Some? ==> result.value.ty.Structure().value in table.structs
  {
    hide Definable, Built, AcyclicRecords;
    var fixed := table.FixedField(ty, records);
    return if fixed.Some? then Some(Typed(fixed.value, None, false)) else None;
  }

  /** The type of a member, defining the structures it holds. */
  method MemberType(field: CField, write: Write, increment: Length, records: Records, stored: Stored, sizes: Sizes,
                    previous: Option<string>, table: Table)
    returns (result: Option<Typed>)
    requires AcyclicRecords(records) && Built(records, table.structs)
    modifies table
    ensures Built(records, table.structs) && Keeps(old(table.structs), table.structs)
    ensures result == TypeOf(field, write, increment, records, stored, sizes, previous)
    ensures result.Some? && result.value.ty.Structure().Some? ==> result.value.ty.Structure().value in table.structs
  {
    hide Definable, Built, AcyclicRecords, FixedTypeOf, BufferTypeOf, UnionTypeOf;
    match (field.ty, write) {
      case (CScalar(scalar), Assigned(_)) =>
        return if increment == Fixed(scalar.Width()) then Some(Typed(ScalarField(scalar), None, false)) else None;
      case (CRecordType(name), Copied(length)) =>
        if name !in records || length.None? || length.value != increment {
          return None;
        }
        if !records[name].isUnion {
          if increment != Fixed(records[name].size) {
            return None;
          }
          result := FixedMember(field.ty, records, table);
          return;
        }
        result := UnionType(records[name].size, increment, stored, sizes);
        UnionHoldsNone(records[name].size, increment, stored, sizes);
      case (CArray(element, len, capacity), Copied(length)) =>
        var width := SizeOfElement(records, element);
        if width.None? || length.None? || length.value != increment {
          return None;
        }
        if !capacity {
          if increment != Fixed(width.value * len) {
            return None;
          }
          result := FixedMember(field.ty, records, table);
          return;
        }
        result := BufferType(field, width.value, increment, records, stored, previous, table);
      case _ =>
        return None;
    }
  }

  lemma {:induction false} UnionHoldsNone(size: nat, copied: Length, stored: Stored, sizes: Sizes)
    ensures UnionTypeOf(size, copied, stored, sizes).Some? ==>
              UnionTypeOf(size, copied, stored, sizes).value.ty.Structure() == None
  {
  }

  // ----- all members

  /** The fields found so far, the member each parameter is stored in, the count relationships
      proven, and the buffers counted in bytes. */
  datatype Analysis = Analysis(fields: seq<Field>, stored: Stored, proven: seq<Proven>, byteCounted: seq<string>)

  function NothingYet(): Analysis {
    Analysis([], map[], [], [])
  }

  function Previous(fields: seq<Field>): Option<string> {
    if fields == [] then None else Some(fields[|fields| - 1].name)
  }

  function AfterStoring(stored: Stored, write: Write, name: string): Stored {
    if write.Assigned? && write.parameter.Some? then stored[write.parameter.value := name] else stored
  }

  function Adding(before: Analysis, name: string, write: Write, typed: Typed): Analysis {
    Analysis(
      before.fields + [Field(name, typed.ty)],
      AfterStoring(before.stored, write, name),
      before.proven + if typed.proven.Some? then [typed.proven.value] else [],
      before.byteCounted + if typed.byteCounted then [name] else [])
  }

  function FindStep(steps: seq<Step>, target: Target): Option<Step> {
    if steps == [] then None
    else if steps[0].target == target then Some(steps[0])
    else FindStep(steps[1..], target)
  }

  /** The analysis of one member more. */
  ghost function AddMember(before: Analysis, member: Member, steps: seq<Step>, records: Records,
                           sizes: Sizes): Option<Analysis>
    requires AcyclicRecords(records)
  {
    var step := FindStep(steps, member.Written());
    if step.None? || step.value.increment.None? then None else
    var typed := TypeOf(member.field, step.value.write, step.value.increment.value, records, before.stored, sizes,
                        Previous(before.fields));
    if typed.None? then None else Some(Adding(before, member.field.name, step.value.write, typed.value))
  }

  ghost function AnalysisOf(members: seq<Member>, k: nat, steps: seq<Step>, records: Records,
                            sizes: Sizes): Option<Analysis>
    requires AcyclicRecords(records) && k <= |members|
  {
    if k == 0 then Some(NothingYet()) else
    var before := AnalysisOf(members, k - 1, steps, records, sizes);
    if before.None? then None else AddMember(before.value, members[k - 1], steps, records, sizes)
  }

  /** The wrapper is one the analysis resolves. */
  ghost predicate Accepted(views: seq<View>, nodes: seq<Node>, records: Records, sizes: Sizes)
    requires AcyclicRecords(records)
  {
    && Numbered(views) && Paired(views, nodes) && PartsDeclared(records, views)
    && MemberTargets(MembersOf(records, views)) == TargetsOf(Steps(views, nodes))
    && Analyzed(views, nodes, records, sizes).Some?
  }

  ghost function Analyzed(views: seq<View>, nodes: seq<Node>, records: Records, sizes: Sizes): Option<Analysis>
    requires AcyclicRecords(records) && Paired(views, nodes) && PartsDeclared(records, views)
  {
    var members := MembersOf(records, views);
    AnalysisOf(members, |members|, Steps(views, nodes), records, sizes)
  }

  lemma {:induction false} FailureStays(members: seq<Member>, j: nat, k: nat, steps: seq<Step>, records: Records,
                                        sizes: Sizes)
    requires AcyclicRecords(records) && j <= k <= |members|
    requires AnalysisOf(members, j, steps, records, sizes).None?
    ensures AnalysisOf(members, k, steps, records, sizes).None?
  {
    if j < k {
      FailureStays(members, j, k - 1, steps, records, sizes);
    }
  }

  lemma {:induction false} ScannedStep(writes: map<Target, Step>, order: seq<Target>, steps: seq<Step>, target: Target)
    requires Scanned(writes, order, steps)
    ensures FindStep(steps, target) == if target in writes then Some(writes[target]) else None
  {
    FindStepFinds(steps, target);
  }

  lemma {:induction false} FindStepFinds(steps: seq<Step>, target: Target)
    ensures FindStep(steps, target).Some? ==> FindStep(steps, target).value in steps && FindStep(steps, target).value.target == target
    ensures FindStep(steps, target).None? ==> forall k | 0 <= k < |steps| :: steps[k].target != target
  {
    if steps != [] && steps[0].target != target {
      FindStepFinds(steps[1..], target);
    }
  }

  lemma {:induction false} PartPosition(records: Records, views: seq<View>, v: nat)
    requires PartsDeclared(records, views) && v < |views|
    ensures MembersOf(records, views[..v + 1]) == MembersOf(records, views[..v]) + PartMembers(records, views[v])
    ensures MembersOf(records, views[..v + 1]) <= MembersOf(records, views)
    decreases |views| - v
  {
    assert views[..v + 1][..v] == views[..v];
    if v + 1 < |views| {
      PartPosition(records, views, v + 1);
    } else {
      assert views[..v + 1] == views;
    }
  }

  /** What the wrapper's writes show of its parameters; none if it writes in any other way
      than every member once, in structure order, each followed by its size. */
  method ParamsLayout(views: seq<View>, nodes: seq<Node>, records: Records, sizes: Sizes, table: Table)
    returns (result: Option<Analysis>)
    requires AcyclicRecords(records) && Built(records, table.structs)
    modifies table
    ensures Built(records, table.structs) && Keeps(old(table.structs), table.structs)
    ensures result.Some? <==> Accepted(views, nodes, records, sizes)
    ensures result.Some? ==> result == Analyzed(views, nodes, records, sizes)
    ensures result.Some? ==> forall k | 0 <= k < |result.value.fields| :: Defines(table.structs, result.value.fields[k])
  {
    hide Accepted, AnalysisOf, Built, Definable, AcyclicRecords, Paired, Scanned, TypeOf, FindStep, StepsOf, FixedType, FixedWidth;
    for k := 0 to |views|
      invariant forall j | 0 <= j < k :: views[j].index == j
    {
      if views[k].index != k {
        NotNumbered(views, nodes, records, sizes, k);
        return None;
      }
    }
    var scanned, writes, order := Scan(views, nodes);
    if !scanned {
      NotPaired(views, nodes, records, sizes);
      return None;
    }
    ghost var steps := Steps(views, nodes);
    var analysis := NothingYet();
    var expected: seq<Target> := [];
    ghost var done: seq<Member> := [];
    NoneAnalyzed(done, steps, records, sizes);
    for v := 0 to |views|
      invariant Built(records, table.structs) && Keeps(old(table.structs), table.structs)
      invariant PartsDeclared(records, views[..v]) && done == MembersOf(records, views[..v])
      invariant AnalysisOf(done, |done|, steps, records, sizes) == Some(analysis)
      invariant expected == MemberTargets(done)
      invariant forall j | 0 <= j < |analysis.fields| :: Defines(table.structs, analysis.fields[j])
    {
      if views[v].record !in records || records[views[v].record].isUnion || !records[views[v].record].packed {
        NotDeclared(views, nodes, records, sizes, v);
        return None;
      }
      var record := records[views[v].record];
      ghost var before := done;
      for f := 0 to |record.fields|
        invariant Built(records, table.structs) && Keeps(old(table.structs), table.structs)
        invariant done == before + PartMembers(records, views[v])[..f]
        invariant AnalysisOf(done, |done|, steps, records, sizes) == Some(analysis)
        invariant expected == MemberTargets(done)
        invariant forall j | 0 <= j < |analysis.fields| :: Defines(table.structs, analysis.fields[j])
      {
        var field := record.fields[f];
        var target := Target(views[v].variable, field.name);
        ghost var member := Member(views[v].variable, field);
        MemberNext(done, member, steps, records, sizes, analysis);
        expected := expected + [target];
        done := done + [member];
        ScannedStep(writes, order, steps, target);
        if target !in writes || writes[target].increment.None? {
          FailsAt(views, nodes, records, sizes, v, f, done);
          return None;
        }
        var step := writes[target];
        ghost var structs := table.structs;
        var typed := MemberType(field, step.write, step.increment.value, records, analysis.stored, sizes,
                                Previous(analysis.fields), table);
        if typed.None? {
          FailsAt(views, nodes, records, sizes, v, f, done);
          return None;
        }
        StillDefined(structs, table.structs, analysis.fields, Field(field.name, typed.value.ty));
        analysis := Adding(analysis, field.name, step.write, typed.value);
      }
      assert PartMembers(records, views[v])[..|record.fields|] == PartMembers(records, views[v]);
      MembersNext(records, views, v);
    }
    assert views[..|views|] == views;
    ScannedOrder(writes, order, steps);
    AllAnalyzed(views, nodes, records, sizes, analysis);
    result := if order == expected then Some(analysis) else None;
  }

  /** A field's structure, if any, is defined. */
  predicate Defines(structs: Structs, field: Field) {
    field.ty.Structure().Some? ==> field.ty.Structure().value in structs
  }

  lemma {:induction false} StillDefined(before: Structs, after: Structs, fields: seq<Field>, field: Field)
    requires Keeps(before, after) && Defines(after, field)
    requires forall j | 0 <= j < |fields| :: Defines(before, fields[j])
    ensures forall j | 0 <= j < |fields + [field]| :: Defines(after, (fields + [field])[j])
  {
  }

  lemma {:induction false} NoneAnalyzed(members: seq<Member>, steps: seq<Step>, records: Records, sizes: Sizes)
    requires AcyclicRecords(records)
    ensures AnalysisOf(members, 0, steps, records, sizes) == Some(NothingYet())
  {
  }

  lemma {:induction false} SameAnalysis(a: seq<Member>, b: seq<Member>, k: nat, steps: seq<Step>, records: Records,
                                        sizes: Sizes)
    requires AcyclicRecords(records) && k <= |a| && k <= |b| && a[..k] == b[..k]
    ensures AnalysisOf(a, k, steps, records, sizes) == AnalysisOf(b, k, steps, records, sizes)
  {
    if k > 0 {
      assert a[..k - 1] == a[..k][..k - 1] && b[..k - 1] == b[..k][..k - 1];
      assert a[k - 1] == a[..k][k - 1] && b[k - 1] == b[..k][k - 1];
      SameAnalysis(a, b, k - 1, steps, records, sizes);
    }
  }

  lemma {:induction false} MemberNext(done: seq<Member>, member: Member, steps: seq<Step>, records: Records,
                                      sizes: Sizes, analysis: Analysis)
    requires AcyclicRecords(records) && AnalysisOf(done, |done|, steps, records, sizes) == Some(analysis)
    ensures AnalysisOf(done + [member], |done| + 1, steps, records, sizes) == AddMember(analysis, member, steps, records, sizes)
    ensures MemberTargets(done + [member]) == MemberTargets(done) + [member.Written()]
  {
    SameAnalysis(done + [member], done, |done|, steps, records, sizes);
  }

  lemma {:induction false} MembersNext(records: Records, views: seq<View>, v: nat)
    requires v < |views| && PartsDeclared(records, views[..v]) && PartDeclared(records, views[v])
    ensures PartsDeclared(records, views[..v + 1])
    ensures MembersOf(records, views[..v + 1]) == MembersOf(records, views[..v]) + PartMembers(records, views[v])
  {
    assert views[..v + 1][..v] == views[..v];
  }

  lemma {:induction false} NotNumbered(views: seq<View>, nodes: seq<Node>, records: Records, sizes: Sizes, k: nat)
    requires AcyclicRecords(records) && k < |views| && views[k].index != k
    ensures !Accepted(views, nodes, records, sizes)
  {
  }

  lemma {:induction false} NotPaired(views: seq<View>, nodes: seq<Node>, records: Records, sizes: Sizes)
    requires AcyclicRecords(records) && !Paired(views, nodes)
    ensures !Accepted(views, nodes, records, sizes)
  {
  }

  lemma {:induction false} NotDeclared(views: seq<View>, nodes: seq<Node>, records: Records, sizes: Sizes, v: nat)
    requires AcyclicRecords(records) && v < |views| && !PartDeclared(records, views[v])
    ensures !Accepted(views, nodes, records, sizes)
  {
  }

  lemma {:induction false} FailsAt(views: seq<View>, nodes: seq<Node>, records: Records, sizes: Sizes, v: nat,
                                   f: nat, done: seq<Member>)
    requires AcyclicRecords(records) && Paired(views, nodes) && v < |views|
    requires PartsDeclared(records, views[..v]) && PartDeclared(records, views[v]) && f < |records[views[v].record].fields|
    requires done == MembersOf(records, views[..v]) + PartMembers(records, views[v])[..f] + [PartMembers(records, views[v])[f]]
    requires AnalysisOf(done, |done|, Steps(views, nodes), records, sizes).None?
    ensures !Accepted(views, nodes, records, sizes)
  {
    hide AnalysisOf, AddMember, TypeOf, StepsOf, Relevant, MembersOf;
    if Accepted(views, nodes, records, sizes) {
      var members := MembersOf(records, views);
      PartPosition(records, views, v);
      assert done <= MembersOf(records, views[..v + 1]) <= members;
      SameAnalysis(done, members, |done|, Steps(views, nodes), records, sizes);
      FailureStays(members, |done|, |members|, Steps(views, nodes), records, sizes);
    }
  }

  lemma {:induction false} ScannedOrder(writes: map<Target, Step>, order: seq<Target>, steps: seq<Step>)
    requires Scanned(writes, order, steps)
    ensures order == TargetsOf(steps)
  {
  }

  lemma {:induction false} AllAnalyzed(views: seq<View>, nodes: seq<Node>, records: Records, sizes: Sizes,
                                       analysis: Analysis)
    requires AcyclicRecords(records) && Numbered(views) && Paired(views, nodes) && PartsDeclared(records, views)
    requires Analyzed(views, nodes, records, sizes) == Some(analysis)
    ensures Accepted(views, nodes, records, sizes) <==>
            MemberTargets(MembersOf(records, views)) == TargetsOf(Steps(views, nodes))
  {
  }
}

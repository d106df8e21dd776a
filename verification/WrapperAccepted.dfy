/** Which wrappers the analysis resolves, and to what, said of each member by itself
    (crates/stm32wb-catalog-extract/src/commands.rs). */
module WrapperAccepted {
  import opened Options
  import opened Layout
  import opened CStructures
  import opened UnionSizes
  import opened Wrapper
  import opened WrapperLayout
  import opened WrapperRun

  // ----- what a member may be

  /** `name` is the member a parameter was last stored in, before the `k`th. */
  ghost predicate StoredLast(members: seq<Member>, steps: seq<Step>, k: nat, parameter: string, name: string)
    requires k <= |members| == |steps|
  {
    exists j | 0 <= j < k :: StoredAt(members, steps, j, k, parameter, name)
  }

  ghost predicate StoredAt(members: seq<Member>, steps: seq<Step>, j: nat, k: nat, parameter: string, name: string)
    requires j < k <= |members| == |steps|
  {
    && steps[j].write == Assigned(Some(parameter)) && members[j].field.name == name
    && forall i | j < i < k :: steps[i].write != Assigned(Some(parameter))
  }

  /** An array's element type and its size in C: an integer, or a declared structure. */
  ghost predicate ElementSized(records: Records, c: CType, element: Element, size: nat) {
    match c
    case CScalar(scalar) => element == IntegerElement(scalar) && size == scalar.Width()
    case CRecordType(name) => element == StructElement(name) && name in records && size == records[name].size
    case _ => false
  }

  /** Nothing is held, or a structure that can be defined. */
  ghost predicate HeldDefined(records: Records, c: CType)
    requires AcyclicRecords(records)
  {
    c.CRecordType? ==> Definable(records, c.name)
  }

  /** An integer, assigned and counted with its width. */
  ghost predicate IsInteger(field: CField, step: Step, ty: FieldType) {
    && field.ty.CScalar? && step.write.Assigned?
    && step.increment == Some(Length(Constant(field.ty.scalar.Width()), 1))
    && ty == ScalarField(field.ty.scalar)
  }

  /** A structure, copied and counted with its size. */
  ghost predicate IsStructure(field: CField, step: Step, records: Records, ty: FieldType)
    requires AcyclicRecords(records)
  {
    && field.ty.CRecordType? && field.ty.name in records && !records[field.ty.name].isUnion
    && step.increment == Some(Length(Constant(records[field.ty.name].size), 1)) && step.write == Copied(step.increment)
    && Definable(records, field.ty.name)
    && ty == StructField(field.ty.name)
  }

  /** A union, copied and counted with a size whose alternatives can be read, none of them
      wider than the union, and whose selecting parameter is stored. */
  ghost predicate IsUnion(field: CField, step: Step, records: Records, sizes: Sizes, members: seq<Member>,
                          steps: seq<Step>, k: nat, ty: FieldType)
    requires k <= |members| == |steps|
  {
    && field.ty.CRecordType? && field.ty.name in records && records[field.ty.name].isUnion
    && step.increment.Some? && step.increment.value.count.Local? && step.write == Copied(step.increment)
    && step.increment.value.count.variable in sizes
    && ty.UnionField?
    && var read := UnionVariants(sizes[step.increment.value.count.variable]);
    && read.Some? && read.value.variants == ty.variants
    && StoredLast(members, steps, k, read.value.selector, ty.selector)
    && forall i | 0 <= i < |ty.variants| :: ty.variants[i].width <= records[field.ty.name].size
  }

  /** A fixed array, copied and counted with its size. */
  ghost predicate IsArray(field: CField, step: Step, records: Records, ty: FieldType)
    requires AcyclicRecords(records)
  {
    && field.ty.CArray? && !field.ty.capacity && ty.ArrayField? && ty.len == field.ty.len
    && (exists size: nat ::
          && ElementSized(records, field.ty.element, ty.element, size)
          && step.increment == Some(Length(Constant(size * field.ty.len), 1)))
    && step.write == Copied(step.increment) && HeldDefined(records, field.ty.element)
  }

  /** A variable buffer, copied and counted with a stored parameter: in elements, or in bytes
      if a byte is the unit of wider elements. */
  ghost predicate IsBuffer(field: CField, step: Step, records: Records, members: seq<Member>, steps: seq<Step>, k: nat,
                           ty: FieldType)
    requires AcyclicRecords(records) && k <= |members| == |steps|
  {
    && field.ty.CArray? && field.ty.capacity && ty.CountedField?
    && step.increment.Some? && step.increment.value.count.Parameter? && step.write == Copied(step.increment)
    && StoredLast(members, steps, k, step.increment.value.count.name, ty.count)
    && exists element, size: nat ::
         && ElementSized(records, field.ty.element, element, size)
         && var unit := step.increment.value.unit;
         if unit == size then ty.element == element && ty.capacity == field.ty.len && HeldDefined(records, field.ty.element)
         else unit == 1 && ty.element == IntegerElement(U8) && ty.capacity == size * field.ty.len
  }

  /** The type of the `k`th member. */
  ghost predicate MemberIs(members: seq<Member>, steps: seq<Step>, k: nat, records: Records, sizes: Sizes, ty: FieldType)
    requires AcyclicRecords(records) && k < |members| == |steps|
  {
    var field, step := members[k].field, steps[k];
    || IsInteger(field, step, ty)
    || IsStructure(field, step, records, ty)
    || IsUnion(field, step, records, sizes, members, steps, k, ty)
    || IsArray(field, step, records, ty)
    || IsBuffer(field, step, records, members, steps, k, ty)
  }

  // ----- the table of stored parameters

  /** `stored` maps every parameter assigned before the `k`th member to where it was last. */
  ghost predicate StoresLast(members: seq<Member>, steps: seq<Step>, k: nat, stored: Stored)
    requires k <= |members| == |steps|
  {
    forall parameter, name :: StoresOne(members, steps, k, stored, parameter, name)
  }

  ghost predicate StoresOne(members: seq<Member>, steps: seq<Step>, k: nat, stored: Stored, parameter: string, name: string)
    requires k <= |members| == |steps|
  {
    StoredLast(members, steps, k, parameter, name) <==> parameter in stored && stored[parameter] == name
  }

  lemma {:induction false} OneMoreStored(members: seq<Member>, steps: seq<Step>, k: nat, parameter: string, name: string)
    requires k < |members| == |steps|
    ensures StoredLast(members, steps, k + 1, parameter, name) <==>
            if steps[k].write == Assigned(Some(parameter)) then members[k].field.name == name
            else StoredLast(members, steps, k, parameter, name)
  {
    if StoredLast(members, steps, k + 1, parameter, name) {
      var j :| 0 <= j < k + 1 && StoredAt(members, steps, j, k + 1, parameter, name);
      if j < k {
        assert StoredAt(members, steps, j, k, parameter, name);
      }
    }
    if steps[k].write == Assigned(Some(parameter)) && members[k].field.name == name {
      assert StoredAt(members, steps, k, k + 1, parameter, name);
    }
    if steps[k].write != Assigned(Some(parameter)) && StoredLast(members, steps, k, parameter, name) {
      var j :| 0 <= j < k && StoredAt(members, steps, j, k, parameter, name);
      assert StoredAt(members, steps, j, k + 1, parameter, name);
    }
  }

  lemma {:induction false} StoresOneMore(members: seq<Member>, steps: seq<Step>, k: nat, stored: Stored)
    requires k < |members| == |steps| && StoresLast(members, steps, k, stored)
    ensures StoresLast(members, steps, k + 1, AfterStoring(stored, steps[k].write, members[k].field.name))
  {
    hide StoredLast;
    var after := AfterStoring(stored, steps[k].write, members[k].field.name);
    var next := k + 1;
    forall parameter, name ensures StoresOne(members, steps, next, after, parameter, name) {
      OneMoreStored(members, steps, k, parameter, name);
      assert StoresOne(members, steps, k, stored, parameter, name);
    }
  }

  // ----- one member

  lemma {:induction false} UnionIs(members: seq<Member>, steps: seq<Step>, k: nat, records: Records, sizes: Sizes,
                                   stored: Stored, ty: FieldType)
    requires k < |members| == |steps| && StoresLast(members, steps, k, stored) && steps[k].increment.Some?
    requires members[k].field.ty.CRecordType? && members[k].field.ty.name in records
    requires records[members[k].field.ty.name].isUnion && steps[k].write == Copied(steps[k].increment)
    ensures IsUnion(members[k].field, steps[k], records, sizes, members, steps, k, ty) <==>
            UnionTypeOf(records[members[k].field.ty.name].size, steps[k].increment.value, stored, sizes)
            == Some(Typed(ty, None, false))
  {
    hide StoredLast, UnionVariants;
    if ty.UnionField? && steps[k].increment.value.count.Local? && steps[k].increment.value.count.variable in sizes {
      var read := UnionVariants(sizes[steps[k].increment.value.count.variable]);
      assert read.Some? ==> StoresOne(members, steps, k, stored, read.value.selector, ty.selector);
    }
  }

  lemma {:induction false} BufferIs(members: seq<Member>, steps: seq<Step>, k: nat, records: Records, stored: Stored,
                                    previous: Option<string>, ty: FieldType)
    requires AcyclicRecords(records) && k < |members| == |steps| && StoresLast(members, steps, k, stored)
    requires steps[k].increment.Some? && members[k].field.ty.CArray? && members[k].field.ty.capacity
    requires steps[k].write == Copied(steps[k].increment)
    ensures var width := SizeOfElement(records, members[k].field.ty.element);
            IsBuffer(members[k].field, steps[k], records, members, steps, k, ty) <==>
            && width.Some?
            && var typed := BufferTypeOf(members[k].field, width.value, steps[k].increment.value, records, stored, previous);
            typed.Some? && typed.value.ty == ty
  {
    hide StoredLast, Definable, AcyclicRecords;
    var c, width := members[k].field.ty.element, SizeOfElement(records, members[k].field.ty.element);
    if ty.CountedField? && steps[k].increment.value.count.Parameter? {
      assert StoresOne(members, steps, k, stored, steps[k].increment.value.count.name, ty.count);
    }
    if width.Some? {
      assert ElementSized(records, c, ElementOf(c).value, width.value);
    }
    assert forall element, size: nat :: ElementSized(records, c, element, size) <==> ElementOf(c) == Some(element) && width == Some(size);
  }

  lemma {:induction false} ArrayIs(field: CField, step: Step, records: Records, ty: FieldType)
    requires AcyclicRecords(records) && step.increment.Some? && field.ty.CArray? && !field.ty.capacity
    requires step.write == Copied(step.increment)
    ensures var width := SizeOfElement(records, field.ty.element);
            IsArray(field, step, records, ty) <==>
            && width.Some? && step.increment.value == Fixed(width.value * field.ty.len)
            && FixedTypeOf(field.ty, records) == Some(Typed(ty, None, false))
  {
    hide Definable, AcyclicRecords;
    var c, width := field.ty.element, SizeOfElement(records, field.ty.element);
    assert forall element, size: nat :: ElementSized(records, c, element, size) <==> ElementOf(c) == Some(element) && width == Some(size);
  }

  lemma {:induction false} TypedRecord(members: seq<Member>, steps: seq<Step>, k: nat, records: Records, sizes: Sizes,
      stored: Stored, previous: Option<string>, ty: FieldType)
    requires AcyclicRecords(records) && k < |members| == |steps| && StoresLast(members, steps, k, stored)
    requires members[k].field.ty.CRecordType?
    ensures MemberIs(members, steps, k, records, sizes, ty) <==>
            && steps[k].increment.Some?
            && var typed := TypeOf(members[k].field, steps[k].write, steps[k].increment.value, records, stored, sizes, previous);
            typed.Some? && typed.value.ty == ty
  {
    hide StoresLast, StoredLast, Definable, AcyclicRecords, UnionTypeOf, BufferTypeOf, FixedTypeOf, IsArray;
    var field, step := members[k].field, steps[k];
    if step.increment.Some? && step.write == Copied(step.increment) {
      if field.ty.name in records && records[field.ty.name].isUnion {
        UnionIs(members, steps, k, records, sizes, stored, ty);
        UnionNotProven(records[field.ty.name].size, step.increment.value, stored, sizes);
      } else {
        StructureFixed(field.ty, records, ty);
      }
    }
    ArrayCopied(field, step, records, ty);
  }

  lemma {:induction false} TypedArray(members: seq<Member>, steps: seq<Step>, k: nat, records: Records, sizes: Sizes,
      stored: Stored, previous: Option<string>, ty: FieldType)
    requires AcyclicRecords(records) && k < |members| == |steps| && StoresLast(members, steps, k, stored)
    requires members[k].field.ty.CArray?
    ensures MemberIs(members, steps, k, records, sizes, ty) <==>
            && steps[k].increment.Some?
            && var typed := TypeOf(members[k].field, steps[k].write, steps[k].increment.value, records, stored, sizes, previous);
            typed.Some? && typed.value.ty == ty
  {
    hide StoresLast, StoredLast, Definable, AcyclicRecords, UnionTypeOf, BufferTypeOf, FixedTypeOf, IsArray;
    var field, step := members[k].field, steps[k];
    if step.increment.Some? && step.write == Copied(step.increment) {
      if field.ty.capacity {
        BufferIs(members, steps, k, records, stored, previous, ty);
      } else {
        ArrayIs(field, step, records, ty);
        FixedNotProven(field.ty, records);
      }
    }
    ArrayCopied(field, step, records, ty);
  }

  lemma {:induction false} TypedInteger(members: seq<Member>, steps: seq<Step>, k: nat, records: Records, sizes: Sizes,
      stored: Stored, previous: Option<string>, ty: FieldType)
    requires AcyclicRecords(records) && k < |members| == |steps| && StoresLast(members, steps, k, stored)
    requires !members[k].field.ty.CRecordType? && !members[k].field.ty.CArray?
    ensures MemberIs(members, steps, k, records, sizes, ty) <==>
            && steps[k].increment.Some?
            && var typed := TypeOf(members[k].field, steps[k].write, steps[k].increment.value, records, stored, sizes, previous);
            typed.Some? && typed.value.ty == ty
  {
    hide StoresLast, StoredLast, Definable, AcyclicRecords, UnionTypeOf, BufferTypeOf, FixedTypeOf, IsArray;
    var field, step := members[k].field, steps[k];
    ArrayCopied(field, step, records, ty);
  }

  /** The analysis types a member exactly as what it is. */
  lemma {:induction false} TypedAsIs(members: seq<Member>, steps: seq<Step>, k: nat, records: Records, sizes: Sizes,
      stored: Stored, previous: Option<string>, ty: FieldType)
    requires AcyclicRecords(records) && k < |members| == |steps| && StoresLast(members, steps, k, stored)
    ensures MemberIs(members, steps, k, records, sizes, ty) <==>
            && steps[k].increment.Some?
            && var typed := TypeOf(members[k].field, steps[k].write, steps[k].increment.value, records, stored, sizes, previous);
            typed.Some? && typed.value.ty == ty
  {
    hide *;
    match members[k].field.ty {
      case CRecordType(_) => TypedRecord(members, steps, k, records, sizes, stored, previous, ty);
      case CArray(_, _, _) => TypedArray(members, steps, k, records, sizes, stored, previous, ty);
      case _ => TypedInteger(members, steps, k, records, sizes, stored, previous, ty);
    }
  }

  lemma {:induction false} ArrayCopied(field: CField, step: Step, records: Records, ty: FieldType)
    requires AcyclicRecords(records)
    ensures IsArray(field, step, records, ty) ==>
              step.increment.Some? && step.write == Copied(step.increment) && field.ty.CArray? && !field.ty.capacity
  {
  }

  lemma {:induction false} UnionNotProven(size: nat, copied: Length, stored: Stored, sizes: Sizes)
    ensures var typed := UnionTypeOf(size, copied, stored, sizes);
            typed.Some? ==> typed.value == Typed(typed.value.ty, None, false)
  {
  }

  lemma {:induction false} FixedNotProven(c: CType, records: Records)
    requires AcyclicRecords(records)
    ensures var typed := FixedTypeOf(c, records);
            typed.Some? ==> typed.value == Typed(typed.value.ty, None, false)
  {
  }

  lemma {:induction false} StructureFixed(c: CType, records: Records, ty: FieldType)
    requires AcyclicRecords(records) && c.CRecordType?
    ensures FixedTypeOf(c, records) == if Definable(records, c.name) then Some(Typed(StructField(c.name), None, false)) else None
  {
    hide Definable;
  }

  // ----- all members

  /** The steps write the members, each once, in order. */
  ghost predicate Aligned(members: seq<Member>, steps: seq<Step>)
    requires |members| == |steps|
  {
    DistinctTargets(steps) && forall j | 0 <= j < |members| :: steps[j].target == members[j].Written()
  }

  lemma {:induction false} AlignedStep(members: seq<Member>, steps: seq<Step>, k: nat)
    requires k < |members| == |steps| && Aligned(members, steps)
    ensures FindStep(steps, members[k].Written()) == Some(steps[k])
  {
    OwnStep(steps, k);
  }

  lemma {:induction false} AnalysisOneMore(members: seq<Member>, k: nat, steps: seq<Step>, records: Records, sizes: Sizes)
    requires AcyclicRecords(records) && k < |members| && AnalysisOf(members, k, steps, records, sizes).Some?
    ensures AnalysisOf(members, k + 1, steps, records, sizes) ==
            AddMember(AnalysisOf(members, k, steps, records, sizes).value, members[k], steps, records, sizes)
  {
    hide AddMember;
  }

  lemma {:induction false} StoredWhenAnalyzed(members: seq<Member>, steps: seq<Step>, k: nat, records: Records, sizes: Sizes)
    requires AcyclicRecords(records) && k <= |members| == |steps| && Aligned(members, steps)
    requires AnalysisOf(members, k, steps, records, sizes).Some?
    ensures StoresLast(members, steps, k, AnalysisOf(members, k, steps, records, sizes).value.stored)
  {
    hide StoresLast, FindStep, TypeOf, DistinctTargets, AfterStoring, AcyclicRecords;
    if k > 0 {
      StoredWhenAnalyzed(members, steps, k - 1, records, sizes);
      OwnStep(steps, k - 1);
      StoresOneMore(members, steps, k - 1, AnalysisOf(members, k - 1, steps, records, sizes).value.stored);
    } else {
      NothingStored(members, steps);
    }
  }

  lemma {:induction false} NothingStored(members: seq<Member>, steps: seq<Step>)
    requires |members| == |steps|
    ensures StoresLast(members, steps, 0, map[])
  {
  }

  /** The members analysed, each the field it is. */
  ghost predicate FieldsAre(members: seq<Member>, steps: seq<Step>, k: nat, records: Records, sizes: Sizes,
                            fields: seq<Field>)
    requires AcyclicRecords(records) && k <= |members| == |steps|
  {
    |fields| == k && forall j | 0 <= j < k :: FieldIs(members, steps, j, records, sizes, fields[j])
  }

  ghost predicate FieldIs(members: seq<Member>, steps: seq<Step>, j: nat, records: Records, sizes: Sizes, field: Field)
    requires AcyclicRecords(records) && j < |members| == |steps|
  {
    field.name == members[j].field.name && MemberIs(members, steps, j, records, sizes, field.ty)
  }

  lemma {:induction false} OneMoreAnalyzed(members: seq<Member>, steps: seq<Step>, k: nat, records: Records, sizes: Sizes,
                                           field: Field)
    requires AcyclicRecords(records) && k < |members| == |steps| && Aligned(members, steps)
    requires AnalysisOf(members, k, steps, records, sizes).Some?
    ensures var before, after := AnalysisOf(members, k, steps, records, sizes), AnalysisOf(members, k + 1, steps, records, sizes);
            FieldIs(members, steps, k, records, sizes, field) <==>
            after.Some? && after.value.fields == before.value.fields + [field]
  {
    hide FindStep, TypeOf, DistinctTargets, AfterStoring, AcyclicRecords, MemberIs, StoresLast, AnalysisOf;
    AnalysisOneMore(members, k, steps, records, sizes);
    var before := AnalysisOf(members, k, steps, records, sizes).value;
    StoredWhenAnalyzed(members, steps, k, records, sizes);
    OwnStep(steps, k);
    TypedAsIs(members, steps, k, records, sizes, before.stored, Previous(before.fields), field.ty);
    var after := AnalysisOf(members, k + 1, steps, records, sizes);
    if after.Some? {
      assert after.value.fields[|before.fields|].name == members[k].field.name;
    }
  }

  lemma {:induction false} FieldsOneMore(members: seq<Member>, steps: seq<Step>, k: nat, records: Records, sizes: Sizes,
                                         before: seq<Field>, field: Field)
    requires AcyclicRecords(records) && k < |members| == |steps| && |before| == k
    ensures FieldsAre(members, steps, k + 1, records, sizes, before + [field]) <==>
            FieldsAre(members, steps, k, records, sizes, before) && FieldIs(members, steps, k, records, sizes, field)
  {
    hide FieldIs, AcyclicRecords;
    var after := before + [field];
    if FieldsAre(members, steps, k + 1, records, sizes, after) {
      forall j | 0 <= j < k ensures FieldIs(members, steps, j, records, sizes, before[j]) {
        assert FieldIs(members, steps, j, records, sizes, after[j]);
      }
      assert FieldIs(members, steps, k, records, sizes, after[k]);
    }
  }

  lemma {:induction false} AnalyzedExactly(members: seq<Member>, steps: seq<Step>, k: nat, records: Records, sizes: Sizes,
                                           fields: seq<Field>)
    requires AcyclicRecords(records) && k <= |members| == |steps| && Aligned(members, steps)
    ensures var analysis := AnalysisOf(members, k, steps, records, sizes);
            FieldsAre(members, steps, k, records, sizes, fields) <==> analysis.Some? && analysis.value.fields == fields
  {
    if k == 0 {
      NoneAnalyzed(members, steps, records, sizes);
    } else {
      hide *;
      var analysis := AnalysisOf(members, k, steps, records, sizes);
      AnalysisNeedsEarlier(members, k, steps, records, sizes);
      OfLength(members, steps, k, records, sizes, fields);
      if |fields| == k {
        var before, last := fields[..k - 1], fields[k - 1];
        assert fields == before + [last];
        FieldsOneMore(members, steps, k - 1, records, sizes, before, last);
        AnalyzedExactly(members, steps, k - 1, records, sizes, before);
        var earlier := AnalysisOf(members, k - 1, steps, records, sizes);
        if earlier.Some? {
          OneMoreAnalyzed(members, steps, k - 1, records, sizes, last);
          if analysis.Some? && analysis.value.fields == fields {
            SamePrefix(earlier.value.fields, before, fields);
          }
        }
      }
    }
  }

  lemma {:induction false} SamePrefix(a: seq<Field>, b: seq<Field>, c: seq<Field>)
    requires a <= c && b <= c && |a| == |b|
    ensures a == b
  {
  }

  lemma {:induction false} OfLength(members: seq<Member>, steps: seq<Step>, k: nat, records: Records, sizes: Sizes,
                                    fields: seq<Field>)
    requires AcyclicRecords(records) && k <= |members| == |steps|
    ensures FieldsAre(members, steps, k, records, sizes, fields) ==> |fields| == k
  {
  }

  lemma {:induction false} AnalysisNeedsEarlier(members: seq<Member>, k: nat, steps: seq<Step>, records: Records, sizes: Sizes)
    requires AcyclicRecords(records) && 0 < k <= |members|
    ensures var analysis, earlier := AnalysisOf(members, k, steps, records, sizes), AnalysisOf(members, k - 1, steps, records, sizes);
            && (earlier.Some? ==> |earlier.value.fields| == k - 1)
            && (analysis.Some? ==> earlier.Some? && |analysis.value.fields| == k && earlier.value.fields <= analysis.value.fields)
  {
    hide *;
    if AnalysisOf(members, k, steps, records, sizes).Some? {
      AnalysisLength(members, k, steps, records, sizes);
      AnalysisGrows(members, k - 1, k, steps, records, sizes);
    }
    if AnalysisOf(members, k - 1, steps, records, sizes).Some? {
      AnalysisLength(members, k - 1, steps, records, sizes);
    }
  }

  /** A wrapper resolves exactly if its parts are numbered, declared, packed structures, it
      writes every member once in their order, each followed by an increment, and every
      member is an integer, a structure, a union, an array or a buffer; its layout has
      exactly those types. */
  lemma {:induction false} AcceptedExactly(views: seq<View>, nodes: seq<Node>, records: Records, sizes: Sizes)
    requires AcyclicRecords(records)
    ensures Accepted(views, nodes, records, sizes) <==>
            && Numbered(views) && Paired(views, nodes) && PartsDeclared(records, views)
            && var members, steps := MembersOf(records, views), Steps(views, nodes);
            && |members| == |steps| && (forall k | 0 <= k < |members| :: steps[k].target == members[k].Written())
            && exists fields :: FieldsAre(members, steps, |members|, records, sizes, fields)
    ensures Accepted(views, nodes, records, sizes) ==>
              var members, steps := MembersOf(records, views), Steps(views, nodes);
              |members| == |steps| && FieldsAre(members, steps, |members|, records, sizes, Analyzed(views, nodes, records, sizes).value.fields)
  {
    hide AnalysisOf, AcyclicRecords, StepsOf, Relevant, MembersOf, FieldsAre;
    if Numbered(views) && Paired(views, nodes) && PartsDeclared(records, views) {
      var members, steps := MembersOf(records, views), Steps(views, nodes);
      TargetsAlike(members, steps);
      if |members| == |steps| && forall k | 0 <= k < |members| :: steps[k].target == members[k].Written() {
        forall fields
          ensures FieldsAre(members, steps, |members|, records, sizes, fields) <==>
                  var analysis := AnalysisOf(members, |members|, steps, records, sizes);
                  analysis.Some? && analysis.value.fields == fields
        {
          AnalyzedExactly(members, steps, |members|, records, sizes, fields);
        }
        var analysis := AnalysisOf(members, |members|, steps, records, sizes);
        assert analysis.Some? ==> FieldsAre(members, steps, |members|, records, sizes, analysis.value.fields);
      }
    }
  }

  lemma {:induction false} TargetsAlike(members: seq<Member>, steps: seq<Step>)
    ensures MemberTargets(members) == TargetsOf(steps) <==>
            |members| == |steps| && forall k | 0 <= k < |members| :: steps[k].target == members[k].Written()
  {
    if MemberTargets(members) == TargetsOf(steps) {
      assert |MemberTargets(members)| == |TargetsOf(steps)|;
      forall k | 0 <= k < |members| ensures steps[k].target == members[k].Written() {
        assert MemberTargets(members)[k] == TargetsOf(steps)[k];
      }
    }
  }

  // ----- the count relationships of a resolved wrapper

  /** A member counted in bytes although its elements are wider. */
  predicate InBytes(records: Records, field: CField, step: Step) {
    && field.ty.CArray? && field.ty.capacity && step.increment.Some?
    && SizeOfElement(records, field.ty.element) != Some(step.increment.value.unit)
  }

  /** The relationships of the first `k` members: every buffer with its count, and whether
      that is the member right before it. */
  function ProvenOf(fields: seq<Field>, k: nat): seq<Proven>
    requires k <= |fields|
  {
    if k == 0 then [] else
    ProvenOf(fields, k - 1)
    + match fields[k - 1].ty
      case CountedField(_, count, _) => [Proven(count, fields[k - 1].name, k > 1 && fields[k - 2].name == count)]
      case _ => []
  }

  function InBytesOf(records: Records, members: seq<Member>, steps: seq<Step>, k: nat): seq<string>
    requires k <= |members| == |steps|
  {
    if k == 0 then [] else
    InBytesOf(records, members, steps, k - 1)
    + if InBytes(records, members[k - 1].field, steps[k - 1]) then [members[k - 1].field.name] else []
  }

  lemma {:induction false} ProvesCount(field: CField, step: Step, increment: Length, records: Records, stored: Stored,
                                       sizes: Sizes, previous: Option<string>)
    requires AcyclicRecords(records) && step.increment == Some(increment)
    requires TypeOf(field, step.write, increment, records, stored, sizes, previous).Some?
    ensures var typed := TypeOf(field, step.write, increment, records, stored, sizes, previous).value;
            && typed.proven == (match typed.ty
                                case CountedField(_, count, _) => Some(Proven(count, field.name, previous == Some(count)))
                                case _ => None)
            && (typed.byteCounted <==> InBytes(records, field, step))
  {
    hide Definable;
  }

  lemma {:induction false} ProvenSame(a: seq<Field>, b: seq<Field>, k: nat)
    requires k <= |a| && a <= b
    ensures ProvenOf(a, k) == ProvenOf(b, k)
  {
    if k > 0 {
      ProvenSame(a, b, k - 1);
    }
  }

  function ProvenBy(fields: seq<Field>, field: Field): seq<Proven> {
    match field.ty
    case CountedField(_, count, _) => [Proven(count, field.name, fields != [] && fields[|fields| - 1].name == count)]
    case _ => []
  }

  lemma {:induction false} ProvenNext(before: seq<Field>, field: Field)
    ensures ProvenOf(before + [field], |before| + 1) == ProvenOf(before, |before|) + ProvenBy(before, field)
  {
    ProvenSame(before, before + [field], |before|);
  }

  lemma {:induction false} MemberReports(before: Analysis, member: Member, step: Step, steps: seq<Step>, records: Records,
                                         sizes: Sizes)
    requires AcyclicRecords(records) && AddMember(before, member, steps, records, sizes).Some?
    requires FindStep(steps, member.Written()) == Some(step)
    ensures var after := AddMember(before, member, steps, records, sizes).value;
            && |after.fields| == |before.fields| + 1
            && var field := after.fields[|before.fields|];
            && after.fields == before.fields + [field]
            && after.proven == before.proven + ProvenBy(before.fields, field)
            && after.byteCounted == before.byteCounted + if InBytes(records, member.field, step) then [member.field.name] else []
  {
    hide FindStep, TypeOf, AcyclicRecords, AfterStoring, InBytes;
    ProvesCount(member.field, step, step.increment.value, records, before.stored, sizes, Previous(before.fields));
  }

  lemma {:induction false} InBytesNext(records: Records, members: seq<Member>, steps: seq<Step>, k: nat)
    requires k < |members| == |steps|
    ensures InBytesOf(records, members, steps, k + 1) ==
            InBytesOf(records, members, steps, k)
            + if InBytes(records, members[k].field, steps[k]) then [members[k].field.name] else []
  {
  }

  /** The relationships reported are exactly those of the layout's buffers, in order. */
  lemma {:induction false} CountsReported(members: seq<Member>, steps: seq<Step>, k: nat, records: Records, sizes: Sizes)
    requires AcyclicRecords(records) && k <= |members| == |steps| && Aligned(members, steps)
    requires AnalysisOf(members, k, steps, records, sizes).Some?
    ensures var analysis := AnalysisOf(members, k, steps, records, sizes).value;
            && |analysis.fields| == k
            && analysis.proven == ProvenOf(analysis.fields, k)
            && analysis.byteCounted == InBytesOf(records, members, steps, k)
  {
    if k > 0 {
      hide *;
      AnalysisStep(members, k - 1, steps, records, sizes);
      CountsReported(members, steps, k - 1, records, sizes);
      AlignedStep(members, steps, k - 1);
      var before := AnalysisOf(members, k - 1, steps, records, sizes).value;
      var after := AnalysisOf(members, k, steps, records, sizes).value;
      MemberReports(before, members[k - 1], steps[k - 1], steps, records, sizes);
      ProvenNext(before.fields, after.fields[k - 1]);
      InBytesNext(records, members, steps, k - 1);
    }
  }
}

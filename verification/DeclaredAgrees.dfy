/** Structures alone give the parameters the code of a wrapper proves
    (crates/stm32wb-catalog-extract/src/declared.rs and snapshot.rs). */
module DeclaredAgrees {
  import opened Options
  import opened Layout
  import opened CStructures
  import opened StructureFacts
  import opened Wrapper
  import opened WrapperLayout
  import opened WrapperRun
  import opened WrapperSound
  import opened Declared

  /** Every buffer is counted in elements, by the member right before it, and there is no
      union. */
  ghost predicate FollowsTheRule(analysis: Analysis) {
    && analysis.byteCounted == []
    && (forall i | 0 <= i < |analysis.proven| :: analysis.proven[i].adjacent)
    && forall k | 0 <= k < |analysis.fields| :: !analysis.fields[k].ty.UnionField?
  }

  /** The views are all the command's parts. */
  ghost predicate AllParts(name: string, views: seq<View>, records: Records) {
    && (forall k | 0 <= k < |views| :: views[k].record == PartName(name, k))
    && PartName(name, |views|) !in records
    && !HasStray(name, records, |views|)
  }

  lemma {:induction false} EvidenceGrows(members: seq<Member>, j: nat, k: nat, steps: seq<Step>, records: Records,
                                         sizes: Sizes)
    requires AcyclicRecords(records) && j <= k <= |members| && AnalysisOf(members, k, steps, records, sizes).Some?
    ensures AnalysisOf(members, j, steps, records, sizes).Some?
    ensures var a, b := AnalysisOf(members, j, steps, records, sizes).value, AnalysisOf(members, k, steps, records, sizes).value;
            a.proven <= b.proven && a.byteCounted <= b.byteCounted
  {
    if j < k {
      EvidenceGrows(members, j, k - 1, steps, records, sizes);
      hide TypeOf, FindStep;
    }
  }

  lemma {:induction false} AddedEvidence(before: Analysis, member: Member, step: Step, steps: seq<Step>,
                                         records: Records, sizes: Sizes)
    requires AcyclicRecords(records) && AddMember(before, member, steps, records, sizes).Some?
    requires FindStep(steps, member.Written()) == Some(step)
    ensures step.increment.Some?
    ensures var typed := TypeOf(member.field, step.write, step.increment.value, records, before.stored, sizes,
                                Previous(before.fields));
            && typed.Some?
            && AddMember(before, member, steps, records, sizes)
               == Some(Adding(before, member.field.name, step.write, typed.value))
  {
    hide TypeOf, FindStep;
  }

  /** Evidence kept to the end follows the rule. */
  lemma {:induction false} EvidenceFollows(analysis: Analysis, before: Analysis, name: string, write: Write,
                                           typed: Typed)
    requires FollowsTheRule(analysis)
    requires var after := Adding(before, name, write, typed);
             after.proven <= analysis.proven && after.byteCounted <= analysis.byteCounted
    ensures !typed.byteCounted && (typed.proven.Some? ==> typed.proven.value.adjacent)
  {
    var after := Adding(before, name, write, typed);
    if typed.proven.Some? {
      assert after.proven[|before.proven|] == typed.proven.value;
    }
  }

  /** The evidence one member adds. */
  lemma {:induction false} OwnEvidence(members: seq<Member>, steps: seq<Step>, records: Records, sizes: Sizes,
                                       analysis: Analysis, k: nat)
    returns (before: Analysis, typed: Typed)
    requires AcyclicRecords(records) && |members| == |steps| && DistinctTargets(steps) && k < |members|
    requires forall j | 0 <= j < |members| :: steps[j].target == members[j].Written()
    requires AnalysisOf(members, |members|, steps, records, sizes) == Some(analysis) && FollowsTheRule(analysis)
    ensures AnalysisOf(members, k, steps, records, sizes) == Some(before)
    ensures k < |analysis.fields| && before.fields == analysis.fields[..k]
    ensures steps[k].increment.Some?
    ensures TypeOf(members[k].field, steps[k].write, steps[k].increment.value, records, before.stored, sizes,
                   Previous(before.fields)) == Some(typed)
    ensures analysis.fields[k] == Field(members[k].field.name, typed.ty)
    ensures !typed.byteCounted && (typed.proven.Some? ==> typed.proven.value.adjacent)
  {
    hide *;
    FieldTyped(members, steps, records, sizes, k, analysis);
    TypedAs(members[k], steps[k], AnalysisOf(members, k, steps, records, sizes).value, analysis.fields[k], records, sizes);
    before := AnalysisOf(members, k, steps, records, sizes).value;
    AnalysisLength(members, k, steps, records, sizes);
    AnalysisGrows(members, k, |members|, steps, records, sizes);
    EvidenceGrows(members, k + 1, |members|, steps, records, sizes);
    AnalysisStep(members, k, steps, records, sizes);
    OwnStep(steps, k);
    AddedEvidence(before, members[k], steps[k], steps, records, sizes);
    typed := TypeOf(members[k].field, steps[k].write, steps[k].increment.value, records, before.stored, sizes,
                    Previous(before.fields)).value;
    EvidenceFollows(analysis, before, members[k].field.name, steps[k].write, typed);
  }

  lemma {:induction false} TypedAs(member: Member, step: Step, before: Analysis, field: Field, records: Records,
                                   sizes: Sizes)
    requires AcyclicRecords(records) && TypedBy(member, step, before, field, records, sizes)
    ensures step.increment.Some?
    ensures var typed := TypeOf(member.field, step.write, step.increment.value, records, before.stored, sizes,
                                Previous(before.fields));
            typed.Some? && field == Field(member.field.name, typed.value.ty)
  {
    hide TypeOf;
  }

  lemma {:induction false} SameType(field: CField, write: Write, increment: Length, records: Records, stored: Stored,
                                    sizes: Sizes, before: seq<Field>, typed: Typed)
    requires AcyclicRecords(records)
    requires TypeOf(field, write, increment, records, stored, sizes, Previous(before)) == Some(typed)
    requires !typed.byteCounted && (typed.proven.Some? ==> typed.proven.value.adjacent) && !typed.ty.UnionField?
    requires typed.ty.CountedField? && Previous(before) == Some(typed.ty.count) ==> IsUnsigned(before[|before| - 1])
    ensures DeclaredType(field.ty, Last(before), records) == Some(typed.ty)
  {
    hide Definable, AcyclicRecords;
  }

  /** The rule types each member as the code does. */
  lemma {:induction false} MemberDeclared(members: seq<Member>, steps: seq<Step>, records: Records, sizes: Sizes,
                                          structs: Structs, analysis: Analysis, k: nat)
    requires Matched(members, steps, records, sizes, structs, analysis) && FollowsTheRule(analysis) && k < |members|
    ensures DeclaredType(members[k].field.ty, Last(analysis.fields[..k]), records) == Some(analysis.fields[k].ty)
    ensures analysis.fields[k].name == members[k].field.name
  {
    hide TypeOf, AnalysisOf, ValidLayout, DistinctTargets, Built, WellSized, AcyclicRecords, Acyclic, DeclaredType;
    var before, typed := OwnEvidence(members, steps, records, sizes, analysis, k);
    if typed.ty.CountedField? && Previous(before.fields) == Some(typed.ty.count) {
      UnsignedReference(structs, analysis.fields, k, k - 1);
    }
    SameType(members[k].field, steps[k].write, steps[k].increment.value, records, before.stored, sizes, before.fields, typed);
  }

  lemma {:induction false} OneMoreDeclared(fields: seq<CField>, k: nat, before: seq<Field>, records: Records,
                                           sofar: seq<Field>, field: Field)
    requires AcyclicRecords(records) && k < |fields| && DeclaredFields(fields, k, before, records) == Some(sofar)
    requires DeclaredType(fields[k].ty, Last(sofar), records) == Some(field.ty) && field.name == fields[k].name
    ensures DeclaredFields(fields, k + 1, before, records) == Some(sofar + [field])
  {
    hide DeclaredType, Last;
  }

  lemma {:induction false} NoneDeclared(fields: seq<CField>, before: seq<Field>, records: Records)
    requires AcyclicRecords(records)
    ensures DeclaredFields(fields, 0, before, records) == Some(before)
  {
  }

  /** The fields of one part, appended to those before it. */
  lemma {:induction false} PartDeclaredAlike(members: seq<Member>, steps: seq<Step>, records: Records, sizes: Sizes,
                                             structs: Structs, analysis: Analysis, start: nat, fields: seq<CField>,
                                             k: nat)
    requires Matched(members, steps, records, sizes, structs, analysis) && FollowsTheRule(analysis)
    requires k <= |fields| && start + |fields| <= |members|
    requires forall i | 0 <= i < |fields| :: members[start + i].field == fields[i]
    ensures AcyclicRecords(records) && |analysis.fields| == |members|
    ensures DeclaredFields(fields, k, analysis.fields[..start], records) == Some(analysis.fields[..start + k])
  {
    hide *;
    Positions(members, steps, records, sizes, structs, analysis);
    if k == 0 {
      NoneDeclared(fields, analysis.fields[..start], records);
    } else {
      PartDeclaredAlike(members, steps, records, sizes, structs, analysis, start, fields, k - 1);
      MemberDeclared(members, steps, records, sizes, structs, analysis, start + k - 1);
      OneMoreDeclared(fields, k - 1, analysis.fields[..start], records, analysis.fields[..start + k - 1],
                      analysis.fields[start + k - 1]);
      assert analysis.fields[..start + k] == analysis.fields[..start + k - 1] + [analysis.fields[start + k - 1]];
    }
  }

  lemma {:induction false} Positions(members: seq<Member>, steps: seq<Step>, records: Records, sizes: Sizes,
                                     structs: Structs, analysis: Analysis)
    requires Matched(members, steps, records, sizes, structs, analysis)
    ensures AcyclicRecords(records) && |analysis.fields| == |members|
  {
    hide *;
    MatchedParts(members, steps, records, sizes, structs, analysis);
  }

  lemma {:induction false} MatchedParts(members: seq<Member>, steps: seq<Step>, records: Records, sizes: Sizes,
                                        structs: Structs, analysis: Analysis)
    requires Matched(members, steps, records, sizes, structs, analysis)
    ensures AcyclicRecords(records) && |analysis.fields| == |members|
  {
  }

  lemma {:induction false} PartsPresent(name: string, views: seq<View>, records: Records)
    requires AllParts(name, views, records) && PartsDeclared(records, views)
    ensures PartsUpTo(name, records, |views|) && PartCount(name, records, 0) == |views|
  {
    hide PartName;
    forall i | 0 <= i < |views| ensures PartName(name, i) in records {
      assert PartDeclared(records, views[i]);
    }
    CountedFrom(name, records, |views|);
  }

  /** The `v`th part is declared as the members of its view. */
  lemma {:induction false} PartOfView(name: string, views: seq<View>, records: Records, v: nat)
    requires PartsDeclared(records, views) && v < |views| && AllParts(name, views, records)
    ensures PartName(name, v) in records && PartDeclared(records, views[v]) && views[v].record == PartName(name, v)
  {
    hide PartName;
    assert PartDeclared(records, views[v]);
  }

  lemma {:induction false} OnePartMore(name: string, records: Records, v: nat, before: seq<Field>)
    requires AcyclicRecords(records) && PartsUpTo(name, records, v + 1)
    requires PartFields(name, records, v) == Some(before)
    requires var record := records[PartName(name, v)]; !record.isUnion && record.packed
    ensures PartFields(name, records, v + 1) ==
            DeclaredFields(records[PartName(name, v)].fields, |records[PartName(name, v)].fields|, before, records)
  {
    hide PartName, DeclaredFields;
  }

  lemma {:induction false} PartsDeclaredAlike(name: string, views: seq<View>, steps: seq<Step>, records: Records,
                                              sizes: Sizes, structs: Structs, analysis: Analysis, v: nat)
    requires PartsDeclared(records, views) && v <= |views|
    requires Matched(MembersOf(records, views), steps, records, sizes, structs, analysis) && FollowsTheRule(analysis)
    requires AllParts(name, views, records) && PartsUpTo(name, records, v)
    ensures AcyclicRecords(records) && PartsDeclared(records, views[..v])
    ensures |MembersOf(records, views[..v])| <= |analysis.fields|
    ensures PartFields(name, records, v) == Some(analysis.fields[..|MembersOf(records, views[..v])|])
  {
    hide Matched, FollowsTheRule, AllParts, PartName, HasStray, DeclaredFields, PartFields, MembersOf, AcyclicRecords;
    var members := MembersOf(records, views);
    Positions(members, steps, records, sizes, structs, analysis);
    if v == 0 {
      NoParts(name, views, records, analysis.fields);
    } else {
      PartsDeclaredAlike(name, views, steps, records, sizes, structs, analysis, v - 1);
      PartPosition(records, views, v - 1);
      PartOfView(name, views, records, v - 1);
      var record := records[PartName(name, v - 1)];
      var start := |MembersOf(records, views[..v - 1])|;
      PartDeclaredAlike(members, steps, records, sizes, structs, analysis, start, record.fields, |record.fields|);
      OnePartMore(name, records, v - 1, analysis.fields[..start]);
    }
  }

  lemma {:induction false} NoParts(name: string, views: seq<View>, records: Records, fields: seq<Field>)
    requires AcyclicRecords(records) && PartsDeclared(records, views)
    ensures MembersOf(records, views[..0]) == [] && PartFields(name, records, 0) == Some(fields[..0])
  {
    assert views[..0] == [] && fields[..0] == [];
  }

  /** Whenever the code's layout follows the rule, the structures alone give the same
      parameters, so that comparing them finds no contradiction. */
  lemma {:induction false} StructuresReproduceCode(name: string, views: seq<View>, nodes: seq<Node>,
      records: Records, sizes: Sizes, structs: Structs, analysis: Analysis)
    requires Resolves(views, nodes, records, sizes, structs, analysis)
    requires FollowsTheRule(analysis) && AllParts(name, views, records)
    ensures DeclaredParams(name, records) == Some(analysis.fields)
  {
    ResolvedMatched(views, nodes, records, sizes, structs, analysis);
    PartsPresent(name, views, records);
    var members := MembersOf(records, views);
    hide Matched, FollowsTheRule, PartName, HasStray, PartFields;
    Positions(members, Steps(views, nodes), records, sizes, structs, analysis);
    PartsDeclaredAlike(name, views, Steps(views, nodes), records, sizes, structs, analysis, |views|);
    assert views[..|views|] == views;
    assert analysis.fields[..|analysis.fields|] == analysis.fields;
  }

  // ----- the structures they reference

  /** Two converted tables give the same structures for the same fields. */
  lemma {:induction false} SameReferenced(records: Records, fields: seq<Field>, a: Structs, b: Structs,
                                          fromA: Structs, fromB: Structs)
    requires Built(records, a) && Built(records, b)
    requires forall k | 0 <= k < |fields| :: Defines(a, fields[k]) && Defines(b, fields[k])
    requires Found(a, map[], fromA) && AllGathered(a, fromA.Keys, fields) && Least(a, {}, fromA.Keys, fields)
    requires Found(b, map[], fromB) && AllGathered(b, fromB.Keys, fields) && Least(b, {}, fromB.Keys, fields)
    ensures fromA == fromB
  {
    NeededByBoth(records, fields, a, b, fromA, fromB);
    NeededByBoth(records, fields, b, a, fromB, fromA);
    forall name | name in fromA ensures fromA[name] == fromB[name] {
      assert BuiltOne(records, a, name) && BuiltOne(records, b, name);
    }
  }

  lemma {:induction false} NeededByBoth(records: Records, fields: seq<Field>, a: Structs, b: Structs, fromA: Structs,
                                        fromB: Structs)
    requires Built(records, a) && Built(records, b)
    requires forall k | 0 <= k < |fields| :: Defines(b, fields[k])
    requires Found(a, map[], fromA) && Least(a, {}, fromA.Keys, fields)
    requires Found(b, map[], fromB) && AllGathered(b, fromB.Keys, fields)
    ensures fromA.Keys <= fromB.Keys
  {
    BuiltClosed(records, b);
    forall name | name in fromB && name in a ensures AllGathered(a, fromB.Keys, a[name]) {
      assert BuiltOne(records, a, name) && BuiltOne(records, b, name);
      assert AllGathered(b, fromB.Keys, b[name]);
      forall k | 0 <= k < |a[name]| ensures Gathered(a, fromB.Keys, a[name][k]) {
        assert Gathered(b, fromB.Keys, b[name][k]);
      }
    }
    assert ClosedFields(a, fromB.Keys);
    forall k | 0 <= k < |fields| ensures Gathered(a, fromB.Keys, fields[k]) {
      assert Gathered(b, fromB.Keys, fields[k]);
    }
    assert AllGathered(a, fromB.Keys, fields);
  }
}

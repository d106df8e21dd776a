/** Layouts from generated structures alone, without the code filling them
    (crates/stm32wb-catalog-extract/src/declared.rs). */
module Declared {
  import opened Options
  import opened Text
  import opened Layout
  import opened CStructures
  import opened StructureFacts
  import opened WrapperLayout

  // ----- one structure

  predicate IsUnsigned(field: Field) {
    field.ty.ScalarField? && !field.ty.scalar.IsSigned()
  }

  function Last(fields: seq<Field>): Option<Field> {
    if fields == [] then None else Some(fields[|fields| - 1])
  }

  /** A member's type: a variable buffer is counted by the unsigned member before it. */
  ghost function DeclaredType(ty: CType, previous: Option<Field>, records: Records): Option<FieldType>
    requires AcyclicRecords(records)
  {
    if ty.CArray? && ty.capacity then
      if previous.None? || !IsUnsigned(previous.value) then None
      else if !MayHold(records, ty) || ElementOf(ty.element).None? || ty.len >= 0x1_0000 then None
      else Some(CountedField(ElementOf(ty.element).value, previous.value.name, ty.len))
    else if MayHold(records, ty) then FixedType(ty) else None
  }

  /** The members of a structure, added to `before`. */
  ghost function DeclaredFields(fields: seq<CField>, k: nat, before: seq<Field>, records: Records): Option<seq<Field>>
    requires AcyclicRecords(records) && k <= |fields|
  {
    if k == 0 then Some(before) else
    var sofar := DeclaredFields(fields, k - 1, before, records);
    if sofar.None? then None else
    var ty := DeclaredType(fields[k - 1].ty, Last(sofar.value), records);
    if ty.None? then None else Some(sofar.value + [Field(fields[k - 1].name, ty.value)])
  }

  lemma {:induction false} DeclaredFailure(fields: seq<CField>, j: nat, k: nat, before: seq<Field>, records: Records)
    requires AcyclicRecords(records) && j <= k <= |fields| && DeclaredFields(fields, j, before, records).None?
    ensures DeclaredFields(fields, k, before, records).None?
  {
    if j < k {
      DeclaredFailure(fields, j, k - 1, before, records);
    }
  }

  method MemberOrCount(ty: CType, previous: Option<Field>, records: Records,
                       table: Table) returns (result: Option<FieldType>)
    requires AcyclicRecords(records) && Built(records, table.structs)
    modifies table
    ensures Built(records, table.structs) && Keeps(old(table.structs), table.structs)
    ensures result == DeclaredType(ty, previous, records)
    ensures result.Some? && result.value.Structure().Some? ==> result.value.Structure().value in table.structs
  {
    hide Definable, Built, AcyclicRecords;
    if ty.CArray? && ty.capacity {
      if previous.None? || !IsUnsigned(previous.value) {
        return None;
      }
      var element := table.ElementType(ty.element, records);
      if element.None? || ty.len >= 0x1_0000 {
        return None;
      }
      return Some(CountedField(element.value, previous.value.name, ty.len));
    }
    result := table.FixedField(ty, records);
  }

  /** Types a structure's members and adds them to the fields before them. */
  method RecordFields(record: CRecord, records: Records, table: Table,
                      before: seq<Field>) returns (result: Option<seq<Field>>)
    requires AcyclicRecords(records) && Built(records, table.structs)
    requires forall k | 0 <= k < |before| :: Defines(table.structs, before[k])
    modifies table
    ensures Built(records, table.structs) && Keeps(old(table.structs), table.structs)
    ensures result == if record.isUnion || !record.packed then None
                      else DeclaredFields(record.fields, |record.fields|, before, records)
    ensures result.Some? ==> forall k | 0 <= k < |result.value| :: Defines(table.structs, result.value[k])
  {
    hide Definable, Built, AcyclicRecords, DeclaredType;
    if record.isUnion || !record.packed {
      return None;
    }
    var fields := before;
    for k := 0 to |record.fields|
      invariant Built(records, table.structs) && Keeps(old(table.structs), table.structs)
      invariant DeclaredFields(record.fields, k, before, records) == Some(fields)
      invariant forall j | 0 <= j < |fields| :: Defines(table.structs, fields[j])
    {
      ghost var structs := table.structs;
      var ty := MemberOrCount(record.fields[k].ty, Last(fields), records, table);
      if ty.None? {
        DeclaredFailure(record.fields, k + 1, |record.fields|, before, records);
        return None;
      }
      StillDefined(structs, table.structs, fields, Field(record.fields[k].name, ty.value));
      fields := fields + [Field(record.fields[k].name, ty.value)];
    }
    return Some(fields);
  }

  // ----- the parts of the parameters

  /** The structure of the `n`th part. */
  function PartName(name: string, n: nat): string {
    name + "_cp" + Decimal(n)
  }

  predicate PartsUpTo(name: string, records: Records, n: nat) {
    forall i | 0 <= i < n :: PartName(name, i) in records
  }

  lemma {:induction false} PartNamesDistinct(name: string, a: nat, b: nat)
    requires PartName(name, a) == PartName(name, b)
    ensures a == b
  {
    assert PartName(name, a)[|name + "_cp"|..] == Decimal(a);
    assert PartName(name, b)[|name + "_cp"|..] == Decimal(b);
    DecimalInjective(a, b);
  }

  lemma {:induction false} PartsBounded(name: string, records: Records, n: nat)
    requires PartsUpTo(name, records, n)
    ensures n <= |records.Keys|
  {
    var names := set i | 0 <= i < n :: PartName(name, i);
    PartsCounted(name, n);
    SmallerSet(names, records.Keys);
  }

  lemma {:induction false} PartsCounted(name: string, n: nat)
    ensures |set i | 0 <= i < n :: PartName(name, i)| == n
  {
    if n > 0 {
      PartsCounted(name, n - 1);
      var before := set i | 0 <= i < n - 1 :: PartName(name, i);
      assert (set i | 0 <= i < n :: PartName(name, i)) == before + {PartName(name, n - 1)};
      if PartName(name, n - 1) in before {
        var i :| 0 <= i < n - 1 && PartName(name, i) == PartName(name, n - 1);
        PartNamesDistinct(name, i, n - 1);
      }
    }
  }

  /** The number of parts, counted from the `n`th on. */
  function PartCount(name: string, records: Records, n: nat): (parts: nat)
    requires PartsUpTo(name, records, n)
    ensures parts >= n && PartsUpTo(name, records, parts) && PartName(name, parts) !in records
    decreases |records.Keys| - n
  {
    PartsBounded(name, records, n);
    if PartName(name, n) in records then
      PartsBounded(name, records, n + 1);
      PartCount(name, records, n + 1)
    else n
  }

  const USIZE := 0x1_0000_0000_0000_0000

  /** The number a structure is given as a part, if it is one. */
  function PartNumber(name: string, record: string): Option<nat> {
    var prefix := name + "_cp";
    if prefix <= record then Unsigned(record[|prefix|..], Ten, USIZE) else None
  }

  predicate IsStray(name: string, record: string, parts: nat) {
    PartNumber(name, record).Some? && PartNumber(name, record).value >= parts
  }

  predicate HasStray(name: string, records: Records, parts: nat) {
    exists record | record in records :: IsStray(name, record, parts)
  }

  /** The fields of the first `n` parts. */
  ghost function PartFields(name: string, records: Records, n: nat): Option<seq<Field>>
    requires AcyclicRecords(records) && PartsUpTo(name, records, n)
  {
    if n == 0 then Some([]) else
    var before := PartFields(name, records, n - 1);
    if before.None? then None else
    var record := records[PartName(name, n - 1)];
    if record.isUnion || !record.packed then None
    else DeclaredFields(record.fields, |record.fields|, before.value, records)
  }

  /** The parameters the structures alone declare. */
  ghost function DeclaredParams(name: string, records: Records): Option<seq<Field>>
    requires AcyclicRecords(records)
  {
    var parts := PartCount(name, records, 0);
    if HasStray(name, records, parts) then None else PartFields(name, records, parts)
  }

  lemma {:induction false} PartFailure(name: string, records: Records, j: nat, k: nat)
    requires AcyclicRecords(records) && j <= k && PartsUpTo(name, records, k) && PartFields(name, records, j).None?
    ensures PartFields(name, records, k).None?
  {
    if j < k {
      PartFailure(name, records, j, k - 1);
    }
  }

  /** Where counting stops, it stopped everywhere before. */
  lemma {:induction false} CountedFrom(name: string, records: Records, n: nat)
    requires PartsUpTo(name, records, n)
    ensures PartCount(name, records, 0) == PartCount(name, records, n)
  {
    hide PartName;
  }

  /** The parameters of a command, from its parts numbered without a gap. */
  method Params(name: string, records: Records, table: Table) returns (result: Option<seq<Field>>)
    requires AcyclicRecords(records) && Built(records, table.structs)
    modifies table
    ensures Built(records, table.structs) && Keeps(old(table.structs), table.structs)
    ensures result == DeclaredParams(name, records)
    ensures result.Some? ==> forall k | 0 <= k < |result.value| :: Defines(table.structs, result.value[k])
  {
    hide Definable, Built, AcyclicRecords, DeclaredFields, PartName, IsStray, Defines;
    var fields: seq<Field> := [];
    var parts := 0;
    while PartName(name, parts) in records
      invariant Built(records, table.structs) && Keeps(old(table.structs), table.structs)
      invariant PartsUpTo(name, records, parts) && PartFields(name, records, parts) == Some(fields)
      invariant forall k | 0 <= k < |fields| :: Defines(table.structs, fields[k])
      decreases |records.Keys| - parts
    {
      PartsBounded(name, records, parts + 1);
      var record := records[PartName(name, parts)];
      var more := RecordFields(record, records, table, fields);
      if more.None? {
        CountedFrom(name, records, parts + 1);
        PartFailure(name, records, parts + 1, PartCount(name, records, 0));
        return None;
      }
      fields := more.value;
      parts := parts + 1;
    }
    CountedFrom(name, records, parts);
    if record :| record in records && IsStray(name, record, parts) {
      return None;
    }
    return Some(fields);
  }

  // ----- what is declared, member by member

  lemma {:induction false} PartText()
    ensures PartName("aci_send", 2) == "aci_send_cp2"
  {
    assert Decimal(2) == "2";
  }

  /** A member and the field declared for it after another one: a fixed-width member becomes
      its type, a variable buffer is counted by the unsigned integer right before it. */
  ghost predicate DeclaredIs(member: CField, previous: Option<Field>, field: Field, records: Records)
    requires AcyclicRecords(records)
  {
    && field.name == member.name
    && (Held(member.ty).Some? ==> Definable(records, Held(member.ty).value))
    && if member.ty.CArray? && member.ty.capacity
       then
         && previous.Some? && previous.value.ty in UNSIGNED
         && field.ty.CountedField? && field.ty.count == previous.value.name && field.ty.capacity == member.ty.len
         && (match member.ty.element
             case CScalar(scalar) => field.ty.element == IntegerElement(scalar)
             case CRecordType(name) => field.ty.element == StructElement(name)
             case _ => false)
       else Becomes(member.ty, field.ty)
  }

  lemma {:induction false} DeclaredAsIs(member: CField, previous: Option<Field>, field: Field, records: Records)
    requires AcyclicRecords(records)
    ensures DeclaredIs(member, previous, field, records) <==>
            field.name == member.name && DeclaredType(member.ty, previous, records) == Some(field.ty)
  {
    FixedTypeBecomes(member.ty, field.ty);
    hide Definable, AcyclicRecords, Becomes, FixedType;
    if previous.Some? {
      assert previous.value.ty in UNSIGNED <==> IsUnsigned(previous.value);
    }
  }

  ghost predicate DeclaredAre(members: seq<CField>, k: nat, before: seq<Field>, fields: seq<Field>, records: Records)
    requires AcyclicRecords(records) && k <= |members|
  {
    && |fields| == |before| + k && before <= fields
    && forall j | 0 <= j < k :: DeclaredAt(members, j, |before|, fields, records)
  }

  /** The `j`th member is declared after `start` fields and the members before it. */
  ghost predicate DeclaredAt(members: seq<CField>, j: nat, start: nat, fields: seq<Field>, records: Records)
    requires AcyclicRecords(records) && j < |members| && start + j < |fields|
  {
    var at := start + j;
    DeclaredIs(members[j], if at == 0 then None else Some(fields[at - 1]), fields[at], records)
  }

  lemma {:induction false} DeclaredAreNext(members: seq<CField>, k: nat, before: seq<Field>, sofar: seq<Field>, field: Field,
                                           records: Records)
    requires AcyclicRecords(records) && k < |members| && |sofar| == |before| + k
    ensures DeclaredAre(members, k + 1, before, sofar + [field], records) <==>
            DeclaredAre(members, k, before, sofar, records) && DeclaredIs(members[k], Last(sofar), field, records)
  {
    hide DeclaredIs, AcyclicRecords;
    var after := sofar + [field];
    assert before <= after <==> before <= sofar;
    forall j | 0 <= j < k
      ensures DeclaredAt(members, j, |before|, after, records) <==> DeclaredAt(members, j, |before|, sofar, records)
    {
    }
    assert DeclaredAt(members, k, |before|, after, records) <==> DeclaredIs(members[k], Last(sofar), field, records);
    hide DeclaredAt;
  }

  /** One structure's members are declared exactly as each is, after those before them. */
  lemma {:induction false} StructureDeclared(members: seq<CField>, k: nat, before: seq<Field>, fields: seq<Field>,
                                             records: Records)
    requires AcyclicRecords(records) && k <= |members|
    ensures DeclaredFields(members, k, before, records) == Some(fields) <==> DeclaredAre(members, k, before, fields, records)
  {
    if k > 0 {
      hide DeclaredAre, DeclaredType, AcyclicRecords, DeclaredIs;
      LengthDeclared(members, k - 1, before, records);
      var earlier := DeclaredFields(members, k - 1, before, records);
      if |fields| == |before| + k {
        var sofar, field := fields[..|fields| - 1], fields[|fields| - 1];
        assert fields == sofar + [field];
        StructureDeclared(members, k - 1, before, sofar, records);
        DeclaredAreNext(members, k - 1, before, sofar, field, records);
        DeclaredAsIs(members[k - 1], Last(sofar), field, records);
        if earlier.Some? && DeclaredFields(members, k, before, records) == Some(fields) {
          assert earlier.value == sofar;
        }
      } else {
        LengthDeclared(members, k, before, records);
        AreLength(members, k, before, fields, records);
      }
    } else {
      NoneDeclared(members, before, fields, records);
    }
  }

  lemma {:induction false} NoneDeclared(members: seq<CField>, before: seq<Field>, fields: seq<Field>, records: Records)
    requires AcyclicRecords(records)
    ensures DeclaredAre(members, 0, before, fields, records) <==> fields == before
  {
  }

  lemma {:induction false} AreLength(members: seq<CField>, k: nat, before: seq<Field>, fields: seq<Field>, records: Records)
    requires AcyclicRecords(records) && k <= |members|
    ensures DeclaredAre(members, k, before, fields, records) ==> |fields| == |before| + k
  {
  }

  lemma {:induction false} LengthDeclared(members: seq<CField>, k: nat, before: seq<Field>, records: Records)
    requires AcyclicRecords(records) && k <= |members|
    ensures var fields := DeclaredFields(members, k, before, records);
            fields.Some? ==> |fields.value| == |before| + k
  {
    if k > 0 {
      LengthDeclared(members, k - 1, before, records);
      hide DeclaredType;
    }
  }

  /** The parts' fields, one after another. */
  ghost predicate PartsAre(name: string, records: Records, n: nat, fields: seq<Field>)
    requires AcyclicRecords(records) && PartsUpTo(name, records, n)
  {
    if n == 0 then fields == [] else
    && var record := records[PartName(name, n - 1)];
    && !record.isUnion && record.packed && |record.fields| <= |fields|
    && var before := fields[..|fields| - |record.fields|];
    && PartsAre(name, records, n - 1, before)
    && DeclaredAre(record.fields, |record.fields|, before, fields, records)
  }

  lemma {:induction false} PartsDeclaredAs(name: string, records: Records, n: nat, fields: seq<Field>)
    requires AcyclicRecords(records) && PartsUpTo(name, records, n)
    ensures PartFields(name, records, n) == Some(fields) <==> PartsAre(name, records, n, fields)
  {
    if n > 0 {
      hide DeclaredAre, DeclaredFields, AcyclicRecords, PartName;
      var record := records[PartName(name, n - 1)];
      var earlier := PartFields(name, records, n - 1);
      if |record.fields| <= |fields| {
        var before := fields[..|fields| - |record.fields|];
        PartsDeclaredAs(name, records, n - 1, before);
        StructureDeclared(record.fields, |record.fields|, before, fields, records);
      }
      if earlier.Some? {
        StructureDeclared(record.fields, |record.fields|, earlier.value, fields, records);
        AreLength(record.fields, |record.fields|, earlier.value, fields, records);
        ArePrefix(record.fields, earlier.value, fields, records);
      }
    }
  }

  lemma {:induction false} ArePrefix(members: seq<CField>, before: seq<Field>, fields: seq<Field>, records: Records)
    requires AcyclicRecords(records)
    ensures DeclaredAre(members, |members|, before, fields, records) ==>
              |members| <= |fields| && before == fields[..|fields| - |members|]
  {
  }

  /** The structures alone declare parameters exactly if those named as parts are numbered
      from 0 without a gap and packed, and every member can be typed: the fields are those. */
  lemma {:induction false} DeclaredExactly(name: string, records: Records, fields: seq<Field>)
    requires AcyclicRecords(records)
    ensures DeclaredParams(name, records) == Some(fields) <==>
            exists n: nat ::
              && PartsUpTo(name, records, n) && PartName(name, n) !in records
              && (forall record | record in records && name + "_cp" <= record ::
                    var number := Unsigned(record[|name + "_cp"|..], Ten, USIZE);
                    number.Some? ==> number.value < n)
              && PartsAre(name, records, n, fields)
  {
    hide DeclaredAre, DeclaredFields, AcyclicRecords, PartsAre, PartFields, Unsigned;
    var parts := PartCount(name, records, 0);
    PartsDeclaredAs(name, records, parts, fields);
    forall n: nat | PartsUpTo(name, records, n) && PartName(name, n) !in records ensures n == parts {
      CountedFrom(name, records, n);
    }
    assert !HasStray(name, records, parts) <==>
           forall record | record in records && name + "_cp" <= record ::
             var number := Unsigned(record[|name + "_cp"|..], Ten, USIZE);
             number.Some? ==> number.value < parts by {
      hide PartName;
      assert forall record | record in records && name + "_cp" <= record ::
          IsStray(name, record, parts) <==>
          Unsigned(record[|name + "_cp"|..], Ten, USIZE).Some? && Unsigned(record[|name + "_cp"|..], Ten, USIZE).value >= parts;
    }
  }
}

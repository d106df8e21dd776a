/** Converted structures have their C sizes; collected structures are the reachable ones. */
module StructureFacts {
  import opened Options
  import opened Layout
  import opened CStructures

  // ----- C sizes

  /** The size of a C type, where its size does not depend on the target. */
  function SizeOf(records: Records, ty: CType): Option<nat> {
    match ty
    case CScalar(scalar) => Some(scalar.Width())
    case CRecordType(name) => if name in records then Some(records[name].size) else None
    case CArray(element, len, _) => var size := SizeOf(records, element); if size.Some? then Some(size.value * len) else None
    case _ => None
  }

  /** The sizes of the first `k` members, one after the other. */
  function PrefixSize(records: Records, record: CRecord, k: nat): Option<nat>
    requires k <= |record.fields|
  {
    if k == 0 then Some(0) else
    var before, size := PrefixSize(records, record, k - 1), SizeOf(records, record.fields[k - 1].ty);
    if before.Some? && size.Some? then Some(before.value + size.value) else None
  }

  /** Packed structures are as large as their members. */
  ghost predicate WellSized(records: Records) {
    forall name | name in records && FixedWidth(records[name]) ::
      PackedSize(records, name)
  }

  ghost predicate PackedSize(records: Records, name: string)
    requires name in records
  {
    var size := PrefixSize(records, records[name], |records[name].fields|);
    size.Some? ==> size.value == records[name].size
  }

  lemma {:induction false} HeldIsStructure(ty: CType)
    requires FixedType(ty).Some?
    ensures FixedType(ty).value.Structure() == Held(ty)
  {
  }

  /** A table converted from acyclic records is acyclic. */
  lemma {:induction false} BuiltAcyclic(records: Records, structs: Structs)
    requires AcyclicRecords(records) && Built(records, structs)
    ensures Acyclic(structs) && NoSelf(structs)
  {
    var rank := RecordRank(records);
    forall name | name in structs ensures name in records {
      assert BuiltOne(records, structs, name);
    }
    forall name, k | name in structs && 0 <= k < |structs[name]|
      ensures HoldsLower(structs, rank, name, structs[name][k].ty)
      ensures structs[name][k].ty.Structure() != Some(name)
    {
      assert BuiltOne(records, structs, name);
      assert HeldLower(records, rank, name, k);
      HeldIsStructure(records[name].fields[k].ty);
    }
    assert Ranks(structs, rank);
  }

  /** No structure holds itself directly. */
  predicate NoSelf(structs: Structs) {
    forall name, k | name in structs && 0 <= k < |structs[name]| :: structs[name][k].ty.Structure() != Some(name)
  }

  /** Converted tables hold every structure their structures hold. */
  lemma {:induction false} BuiltClosed(records: Records, structs: Structs)
    requires Built(records, structs)
    ensures ClosedFields(structs, structs.Keys)
    ensures forall name, k | name in structs && 0 <= k < |structs[name]| && structs[name][k].ty.Structure().Some? ::
              structs[name][k].ty.Structure().value in structs
  {
    forall name, k | name in structs && 0 <= k < |structs[name]|
      ensures structs[name][k].ty.Structure().Some? ==> structs[name][k].ty.Structure().value in structs
    {
      assert BuiltOne(records, structs, name);
      assert HoldsBuilt(records, structs, name, k);
      HeldIsStructure(records[name].fields[k].ty);
    }
  }

  /** The width of a fixed-width member. */
  function MemberWidth(structs: Structs, ty: FieldType): Option<u16>
    requires Acyclic(structs)
  {
    match ty
    case ScalarField(scalar) => Some(scalar.Width())
    case StructField(inner) => StructWidth(structs, inner)
    case ArrayField(IntegerElement(scalar), len) => CheckedMul(Some(scalar.Width()), len)
    case ArrayField(StructElement(inner), len) => CheckedMul(StructWidth(structs, inner), len)
    case _ => None
  }

  lemma {:induction false} PrefixStep(structs: Structs, name: string, k: nat)
    requires Acyclic(structs) && name in structs && k < |structs[name]| && structs[name][k].ty.Structure() != Some(name)
    ensures PrefixWidth(structs, name, k + 1) ==
            CheckedAdd(PrefixWidth(structs, name, k), MemberWidth(structs, structs[name][k].ty))
  {
  }

  /** What a width must be, if there is one: the C size. */
  ghost predicate RightWidth(width: Option<u16>, size: Option<nat>) {
    width.Some? ==> size == Some(width.value)
  }

  ghost function HeldSize(records: Records, ty: CType): Option<nat> {
    if Held(ty).Some? then SizeOf(records, CRecordType(Held(ty).value)) else None
  }

  lemma {:induction false} MemberWidthIsSize(records: Records, structs: Structs, ty: CType)
    requires Acyclic(structs) && FixedType(ty).Some?
    requires Held(ty).Some? ==> RightWidth(StructWidth(structs, Held(ty).value), HeldSize(records, ty))
    ensures RightWidth(MemberWidth(structs, FixedType(ty).value), SizeOf(records, ty))
  {
    hide StructWidth;
    if ty.CArray? {
      assert SizeOf(records, ty.element) == (if ty.element.CScalar? then Some(ty.element.scalar.Width()) else HeldSize(records, ty));
    }
  }

  lemma {:induction false} MemberSizeIsWidth(records: Records, structs: Structs, ty: CType)
    requires Acyclic(structs) && FixedType(ty).Some?
    requires Held(ty).Some? ==> HeldSize(records, ty).Some? && StructWidth(structs, Held(ty).value) == HeldSize(records, ty)
    ensures SizeOf(records, ty).Some?
    ensures SizeOf(records, ty).value < 0x1_0000 ==> MemberWidth(structs, FixedType(ty).value) == SizeOf(records, ty)
  {
    hide StructWidth;
    if ty.CArray? {
      assert SizeOf(records, ty.element) == (if ty.element.CScalar? then Some(ty.element.scalar.Width()) else HeldSize(records, ty));
    }
  }

  /** Everything the proofs by member need to know of one member of a converted structure. */
  lemma {:induction false} MemberOf(records: Records, structs: Structs, name: string, k: nat)
    requires AcyclicRecords(records) && Built(records, structs) && Acyclic(structs) && name in structs && k < |structs[name]|
    ensures name in records && |records[name].fields| == |structs[name]|
    ensures var ty := records[name].fields[k].ty;
            && FixedType(ty) == Some(structs[name][k].ty) && structs[name][k].ty.Structure() == Held(ty)
            && Held(ty) != Some(name)
            && (Held(ty).Some? ==> Held(ty).value in structs && Height(structs, Held(ty).value) < Height(structs, name))
  {
    assert BuiltOne(records, structs, name);
    var ty := records[name].fields[k].ty;
    HeldIsStructure(ty);
    assert HoldsLower(structs, RankOf(structs), name, structs[name][k].ty);
    assert HoldsBuilt(records, structs, name, k);
    BuiltAcyclic(records, structs);
  }

  lemma {:induction false} RecordOf(records: Records, structs: Structs, name: string)
    requires Built(records, structs) && WellSized(records) && name in structs
    ensures name in records && |records[name].fields| == |structs[name]| && PackedSize(records, name)
  {
    assert BuiltOne(records, structs, name);
  }

  /** Whenever a converted structure has a width, the width is its C size: nothing wraps. */
  lemma {:induction false} WidthIsSize(records: Records, structs: Structs, name: string)
    requires AcyclicRecords(records) && WellSized(records) && Built(records, structs) && Acyclic(structs) && name in structs
    ensures name in records && RightWidth(StructWidth(structs, name), Some(records[name].size))
    decreases Height(structs, name), 1, 0
  {
    hide Built, WellSized, AcyclicRecords, Acyclic;
    RecordOf(records, structs, name);
    PrefixIsSize(records, structs, name, |structs[name]|);
  }

  lemma {:induction false} PrefixIsSize(records: Records, structs: Structs, name: string, k: nat)
    requires AcyclicRecords(records) && WellSized(records) && Built(records, structs) && Acyclic(structs) && name in structs
    requires k <= |structs[name]| && name in records && |records[name].fields| == |structs[name]|
    ensures RightWidth(PrefixWidth(structs, name, k), PrefixSize(records, records[name], k))
    decreases Height(structs, name), 0, k
  {
    hide *;
    if k > 0 {
      var ty := records[name].fields[k - 1].ty;
      MemberOf(records, structs, name, k - 1);
      PrefixIsSize(records, structs, name, k - 1);
      if Held(ty).Some? {
        WidthIsSize(records, structs, Held(ty).value);
        SizeOfHeld(records, ty);
      }
      MemberWidthIsSize(records, structs, ty);
      PrefixStep(structs, name, k - 1);
      WidthsAdd(records, records[name], k - 1, PrefixWidth(structs, name, k - 1), MemberWidth(structs, FixedType(ty).value));
    } else {
      NoPrefix(records, structs, name);
    }
  }

  lemma {:induction false} WidthsAdd(records: Records, record: CRecord, k: nat, before: Option<u16>, width: Option<u16>)
    requires k < |record.fields|
    requires RightWidth(before, PrefixSize(records, record, k)) && RightWidth(width, SizeOf(records, record.fields[k].ty))
    ensures RightWidth(CheckedAdd(before, width), PrefixSize(records, record, k + 1))
  {
    hide SizeOf;
  }

  lemma {:induction false} SizesAdd(records: Records, record: CRecord, k: nat, before: Option<u16>, width: Option<u16>)
    requires k < |record.fields|
    requires PrefixSize(records, record, k).Some? && SizeOf(records, record.fields[k].ty).Some?
    requires PrefixSize(records, record, k).value < 0x1_0000 ==> before == PrefixSize(records, record, k)
    requires SizeOf(records, record.fields[k].ty).value < 0x1_0000 ==> width == SizeOf(records, record.fields[k].ty)
    ensures PrefixSize(records, record, k + 1).Some?
    ensures PrefixSize(records, record, k + 1).value < 0x1_0000 ==> CheckedAdd(before, width) == PrefixSize(records, record, k + 1)
  {
    hide SizeOf;
  }

  lemma {:induction false} SizeOfHeld(records: Records, ty: CType)
    requires Held(ty).Some? && Held(ty).value in records
    ensures HeldSize(records, ty) == Some(records[Held(ty).value].size)
  {
  }

  ghost predicate AllFit(records: Records, structs: Structs) {
    forall name | name in structs && name in records :: records[name].size < 0x1_0000
  }

  /** Where the C sizes of all converted structures fit in 16 bits, each has its width. */
  lemma {:induction false} SizeIsWidth(records: Records, structs: Structs, name: string)
    requires AcyclicRecords(records) && WellSized(records) && Built(records, structs) && Acyclic(structs) && name in structs
    requires AllFit(records, structs)
    ensures name in records && StructWidth(structs, name) == Some(records[name].size)
    decreases Height(structs, name), 1, 0
  {
    hide Built, WellSized, AcyclicRecords, Acyclic;
    RecordOf(records, structs, name);
    SizeIsPrefix(records, structs, name, |structs[name]|);
  }

  lemma {:induction false} SizeIsPrefix(records: Records, structs: Structs, name: string, k: nat)
    requires AcyclicRecords(records) && WellSized(records) && Built(records, structs) && Acyclic(structs) && name in structs
    requires k <= |structs[name]| && name in records && |records[name].fields| == |structs[name]|
    requires AllFit(records, structs)
    ensures PrefixSize(records, records[name], k).Some?
    ensures PrefixSize(records, records[name], k).value < 0x1_0000 ==>
              PrefixWidth(structs, name, k) == PrefixSize(records, records[name], k)
    decreases Height(structs, name), 0, k
  {
    hide *;
    if k > 0 {
      var ty := records[name].fields[k - 1].ty;
      MemberOf(records, structs, name, k - 1);
      SizeIsPrefix(records, structs, name, k - 1);
      if Held(ty).Some? {
        SizeIsWidth(records, structs, Held(ty).value);
        SizeOfHeld(records, ty);
      }
      MemberSizeIsWidth(records, structs, ty);
      PrefixStep(structs, name, k - 1);
      SizesAdd(records, records[name], k - 1, PrefixWidth(structs, name, k - 1), MemberWidth(structs, FixedType(ty).value));
    } else {
      NoPrefix(records, structs, name);
    }
  }

  lemma {:induction false} NoPrefix(records: Records, structs: Structs, name: string)
    requires Acyclic(structs) && name in structs && name in records
    ensures PrefixWidth(structs, name, 0) == Some(0) && PrefixSize(records, records[name], 0) == Some(0)
    ensures RightWidth(PrefixWidth(structs, name, 0), PrefixSize(records, records[name], 0))
  {
  }

  // ----- reachable structures

  ghost function HeightOf(structs: Structs, field: Field): nat
    requires Acyclic(structs)
  {
    if field.ty.Structure().Some? then Height(structs, field.ty.Structure().value) else 0
  }

  ghost function MaxHeight(structs: Structs, fields: seq<Field>): (height: nat)
    requires Acyclic(structs)
    ensures forall k | 0 <= k < |fields| :: HeightOf(structs, fields[k]) <= height
    ensures fields != [] ==> exists k | 0 <= k < |fields| :: HeightOf(structs, fields[k]) == height
  {
    if fields == [] then 0 else
    var rest := MaxHeight(structs, fields[1..]);
    var first := HeightOf(structs, fields[0]);
    assert first >= rest ==> HeightOf(structs, fields[0]) == first;
    if first >= rest then first else rest
  }

  lemma {:induction false} FieldsBelow(structs: Structs, name: string)
    requires Acyclic(structs) && NoSelf(structs) && name in structs
    ensures MaxHeight(structs, structs[name]) < Height(structs, name)
  {
    forall k | 0 <= k < |structs[name]| ensures HeightOf(structs, structs[name][k]) < Height(structs, name) {
      assert HoldsLower(structs, RankOf(structs), name, structs[name][k].ty);
    }
  }

  /** `name` is the structure of a field, or of a field of such a structure, and so on. */
  predicate Refers(fields: seq<Field>, structs: Structs, name: string)
    requires Acyclic(structs) && NoSelf(structs)
    decreases MaxHeight(structs, fields), |fields|
  {
    if fields == [] then false else
    var inner := fields[0].ty.Structure();
    || (inner.Some? && (inner.value == name ||
          (inner.value in structs && (FieldsBelow(structs, inner.value); Refers(structs[inner.value], structs, name)))))
    || Refers(fields[1..], structs, name)
  }

  lemma {:induction false} RefersByField(fields: seq<Field>, structs: Structs, name: string, k: nat)
    requires Acyclic(structs) && NoSelf(structs) && k < |fields|
    requires fields[k].ty.Structure().Some?
    requires var inner := fields[k].ty.Structure().value;
             inner == name || (inner in structs && Refers(structs[inner], structs, name))
    ensures Refers(fields, structs, name)
  {
    if k > 0 {
      RefersByField(fields[1..], structs, name, k - 1);
    }
  }

  /** What is referred to is in every closed set with what the fields hold. */
  lemma {:induction false} ReferredIsNeeded(fields: seq<Field>, structs: Structs, name: string, names: set<string>)
    requires Acyclic(structs) && NoSelf(structs) && name in structs
    requires ClosedFields(structs, names) && AllGathered(structs, names, fields)
    requires Refers(fields, structs, name)
    ensures name in names
    decreases MaxHeight(structs, fields), |fields|
  {
    var inner := fields[0].ty.Structure();
    assert Gathered(structs, names, fields[0]);
    if inner.Some? && inner.value == name {
    } else if inner.Some? && inner.value in structs && Refers(structs[inner.value], structs, name) {
      FieldsBelow(structs, inner.value);
      assert AllGathered(structs, names, structs[inner.value]);
      ReferredIsNeeded(structs[inner.value], structs, name, names);
    } else {
      assert AllGathered(structs, names, fields[1..]) by {
        forall j | 0 <= j < |fields[1..]| ensures Gathered(structs, names, fields[1..][j]) {
          assert Gathered(structs, names, fields[j + 1]);
        }
      }
      ReferredIsNeeded(fields[1..], structs, name, names);
    }
  }

  /** Referring is transitive. */
  lemma {:induction false} RefersThrough(fields: seq<Field>, structs: Structs, name: string, k: nat)
    requires Acyclic(structs) && NoSelf(structs) && name in structs && k < |structs[name]|
    requires Refers(fields, structs, name) && structs[name][k].ty.Structure().Some?
    ensures Refers(fields, structs, structs[name][k].ty.Structure().value)
    decreases MaxHeight(structs, fields), |fields|
  {
    var inner, held := fields[0].ty.Structure(), structs[name][k].ty.Structure().value;
    if inner.Some? && inner.value == name {
      RefersByField(structs[name], structs, held, k);
    } else if inner.Some? && inner.value in structs && Refers(structs[inner.value], structs, name) {
      FieldsBelow(structs, inner.value);
      RefersThrough(structs[inner.value], structs, name, k);
    } else {
      RefersThrough(fields[1..], structs, name, k);
    }
  }

  lemma {:induction false} ReferredClosed(fields: seq<Field>, all: Structs, names: set<string>)
    requires Acyclic(all) && NoSelf(all)
    requires names == set name | name in all && Refers(fields, all, name)
    ensures ClosedFields(all, names) && AllGathered(all, names, fields)
  {
    forall name | name in names ensures AllGathered(all, names, all[name]) {
      forall k | 0 <= k < |all[name]| ensures Gathered(all, names, all[name][k]) {
        if all[name][k].ty.Structure().Some? {
          RefersThrough(fields, all, name, k);
        }
      }
    }
    forall k | 0 <= k < |fields| ensures Gathered(all, names, fields[k]) {
      if fields[k].ty.Structure().Some? {
        RefersByField(fields, all, fields[k].ty.Structure().value, k);
      }
    }
  }

  /** What collecting from an empty table gives is closed, and is what is referred to. */
  lemma {:induction false} CollectedIsReferred(fields: seq<Field>, all: Structs, collected: Structs, name: string)
    requires Acyclic(all) && NoSelf(all) && name in all
    requires Found(all, map[], collected) && AllGathered(all, collected.Keys, fields) && Least(all, {}, collected.Keys, fields)
    ensures name in collected <==> Refers(fields, all, name)
  {
    assert ClosedFields(all, collected.Keys);
    if Refers(fields, all, name) {
      ReferredIsNeeded(fields, all, name, collected.Keys);
    }
    var referred := set n | n in all && Refers(fields, all, n);
    ReferredClosed(fields, all, referred);
    assert collected.Keys <= referred;
  }

  /** From a closed starting table, the result is the least closed one with the fields'
      structures: what was there and what is reachable, no more. */
  lemma {:induction false} CollectedIsLeast(fields: seq<Field>, all: Structs, start: Structs, collected: Structs,
                                            names: set<string>)
    requires Agree(start, all) && ClosedFields(all, start.Keys)
    requires Found(all, start, collected) && AllGathered(all, collected.Keys, fields)
    requires Least(all, start.Keys, collected.Keys, fields)
    ensures ClosedFields(all, collected.Keys) && Agree(collected, all)
    ensures ClosedFields(all, names) && start.Keys <= names && AllGathered(all, names, fields) ==> collected.Keys <= names
  {
    forall name | name in collected && name in all ensures AllGathered(all, collected.Keys, all[name]) {
      if name in start {
        MoreGathered(all, start.Keys, collected.Keys, all[name]);
      }
    }
  }

  // ----- which structures are defined, and as what

  /** A C type and the fixed-width catalog type it becomes. */
  ghost predicate Becomes(c: CType, ty: FieldType) {
    match c
    case CScalar(scalar) => ty == ScalarField(scalar)
    case CRecordType(name) => ty == StructField(name)
    case CArray(element, len, capacity) =>
      && !capacity && ty.ArrayField? && ty.len == len
      && (match element
          case CScalar(scalar) => ty.element == IntegerElement(scalar)
          case CRecordType(name) => ty.element == StructElement(name)
          case _ => false)
    case _ => false
  }

  lemma {:induction false} FixedTypeBecomes(c: CType, ty: FieldType)
    ensures Becomes(c, ty) <==> FixedType(c) == Some(ty)
  {
  }

  /** Every structure of a converted table has the members of its record, by name and type. */
  lemma {:induction false} BuiltMemberByMember(records: Records, structs: Structs, name: string, k: nat)
    requires Built(records, structs) && name in structs && k < |structs[name]|
    ensures name in records && |structs[name]| == |records[name].fields|
    ensures structs[name][k].name == records[name].fields[k].name
    ensures Becomes(records[name].fields[k].ty, structs[name][k].ty)
  {
    assert BuiltOne(records, structs, name);
    FixedTypeBecomes(records[name].fields[k].ty, structs[name][k].ty);
  }

  /** A packed structure of integers, structures among `names`, and fixed arrays of either. */
  ghost predicate PlainRecord(records: Records, names: set<string>, name: string) {
    && name in records && !records[name].isUnion && records[name].packed
    && forall k | 0 <= k < |records[name].fields| :: PlainMember(names, records[name].fields[k].ty)
  }

  ghost predicate AllPlain(records: Records, names: set<string>) {
    forall name | name in names :: PlainRecord(records, names, name)
  }

  ghost predicate PlainMember(names: set<string>, c: CType) {
    match c
    case CScalar(_) => true
    case CRecordType(name) => name in names
    case CArray(element, len, capacity) =>
      !capacity && len <= 65535 && (element.CScalar? || (element.CRecordType? && element.name in names))
    case _ => false
  }

  lemma {:induction false} PlainFixed(names: set<string>, c: CType)
    ensures PlainMember(names, c) <==> FixedType(c).Some? && (Held(c).Some? ==> Held(c).value in names)
  {
  }

  lemma {:induction false} PlainDefinable(records: Records, names: set<string>, name: string)
    requires AcyclicRecords(records) && name in names && AllPlain(records, names)
    ensures Definable(records, name)
    decreases Depth(records, Some(name))
  {
    assert PlainRecord(records, names, name);
    forall k | 0 <= k < |records[name].fields|
      ensures FixedType(records[name].fields[k].ty).Some?
      ensures Depth(records, Held(records[name].fields[k].ty)) < Depth(records, Some(name))
      ensures HeldDefinable(records, name, k)
    {
      PlainFixed(names, records[name].fields[k].ty);
      HeldDeeper(records, name, k);
      if Held(records[name].fields[k].ty).Some? {
        PlainDefinable(records, names, Held(records[name].fields[k].ty).value);
      }
    }
  }

  /** A structure can be defined exactly if it is one of some structures that hold nothing
      but integers, one another, and fixed arrays of either, all packed and none a union. */
  lemma {:induction false} DefinableExactly(records: Records, name: string)
    requires AcyclicRecords(records)
    ensures Definable(records, name) <==>
            exists names: set<string> :: name in names && AllPlain(records, names)
  {
    if Definable(records, name) {
      var names := set other | other in records && Definable(records, other);
      forall other | other in names ensures PlainRecord(records, names, other) {
        DefinablePlain(records, names, other);
      }
      assert name in names && AllPlain(records, names);
    }
    if names: set<string> :| name in names && AllPlain(records, names) {
      PlainDefinable(records, names, name);
    }
  }

  lemma {:induction false} DefinablePlain(records: Records, names: set<string>, name: string)
    requires AcyclicRecords(records) && Definable(records, name)
    requires forall other :: other in names <==> other in records && Definable(records, other)
    ensures PlainRecord(records, names, name)
  {
    forall k | 0 <= k < |records[name].fields| ensures PlainMember(names, records[name].fields[k].ty) {
      HeldDeeper(records, name, k);
      assert HeldDefinable(records, name, k);
      PlainFixed(names, records[name].fields[k].ty);
      var held := Held(records[name].fields[k].ty);
      if held.Some? {
        assert Definable(records, held.value);
        assert held.value in names;
      }
    }
  }
}

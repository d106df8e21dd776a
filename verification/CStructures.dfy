/** C records, and the structures converted from them
    (crates/stm32wb-catalog-extract/src/c.rs and commands.rs). */
module CStructures {
  import opened Options
  import opened Layout

  datatype CType =
    | CScalar(scalar: Scalar)
    | CRecordType(name: string)
    | CArray(element: CType, len: nat, capacity: bool)
    | CEnum(enumName: string)
    | CPointer
    | COther(spelling: string)

  datatype CField = CField(name: string, ty: CType)

  /** A structure or union; `packed` if its size and the offsets of its members are those
      its members imply. */
  datatype CRecord = CRecord(isUnion: bool, size: nat, packed: bool, fields: seq<CField>)

  type Records = map<string, CRecord>

  /** The record a member or element holds. */
  function Held(ty: CType): Option<string> {
    match ty
    case CRecordType(name) => Some(name)
    case CArray(element, _, _) => if element.CRecordType? then Some(element.name) else None
    case _ => None
  }

  ghost predicate RecordRanks(records: Records, rank: map<string, nat>) {
    && records.Keys <= rank.Keys
    && forall name, k | name in records && 0 <= k < |records[name].fields| :: HeldLower(records, rank, name, k)
  }

  ghost predicate HeldLower(records: Records, rank: map<string, nat>, name: string, k: nat)
    requires name in records && records.Keys <= rank.Keys && k < |records[name].fields|
  {
    var held := Held(records[name].fields[k].ty);
    held.Some? && held.value in records ==> rank[held.value] < rank[name]
  }

  /** No record holds itself, as C requires of records held by value. */
  ghost predicate AcyclicRecords(records: Records) {
    exists rank :: RecordRanks(records, rank)
  }

  ghost function RecordRank(records: Records): (rank: map<string, nat>)
    requires AcyclicRecords(records)
    ensures RecordRanks(records, rank)
  {
    var rank :| RecordRanks(records, rank); rank
  }

  ghost function Depth(records: Records, name: Option<string>): nat
    requires AcyclicRecords(records)
  {
    if name.Some? && name.value in records then RecordRank(records)[name.value] + 1 else 0
  }

  lemma {:induction false} HeldDeeper(records: Records, name: string, k: nat)
    requires AcyclicRecords(records) && name in records && k < |records[name].fields|
    ensures Depth(records, Held(records[name].fields[k].ty)) < Depth(records, Some(name))
  {
    assert HeldLower(records, RecordRank(records), name, k);
  }

  // ----- what a conversion gives

  function ElementOf(ty: CType): Option<Element> {
    match ty
    case CScalar(scalar) => Some(IntegerElement(scalar))
    case CRecordType(name) => Some(StructElement(name))
    case _ => None
  }

  /** The catalog type of a fixed-width member, if it has one. */
  function FixedType(ty: CType): Option<FieldType> {
    match ty
    case CScalar(scalar) => Some(ScalarField(scalar))
    case CRecordType(name) => Some(StructField(name))
    case CArray(element, len, capacity) =>
      if capacity || ElementOf(element).None? || len >= 0x1_0000 then None
      else Some(ArrayField(ElementOf(element).value, len))
    case _ => None
  }

  predicate FixedWidth(record: CRecord) {
    && !record.isUnion && record.packed
    && forall k | 0 <= k < |record.fields| :: FixedType(record.fields[k].ty).Some?
  }

  function FieldsOf(record: CRecord): (fields: seq<Field>)
    requires FixedWidth(record)
    ensures |fields| == |record.fields|
    ensures forall k | 0 <= k < |fields| ::
              fields[k] == Field(record.fields[k].name, FixedType(record.fields[k].ty).value)
  {
    seq(|record.fields|, k requires 0 <= k < |record.fields| && FixedWidth(record) =>
          Field(record.fields[k].name, FixedType(record.fields[k].ty).value))
  }

  /** Whether a structure and every structure it holds are fixed-width. */
  ghost predicate Definable(records: Records, name: string)
    requires AcyclicRecords(records)
    decreases Depth(records, Some(name)), 0
  {
    && name in records && FixedWidth(records[name])
    && forall k | 0 <= k < |records[name].fields| ::
         HeldDeeper(records, name, k);
         HeldDefinable(records, name, k)
  }

  ghost predicate HeldDefinable(records: Records, name: string, k: nat)
    requires AcyclicRecords(records) && name in records && k < |records[name].fields|
    requires Depth(records, Held(records[name].fields[k].ty)) < Depth(records, Some(name))
    decreases Depth(records, Held(records[name].fields[k].ty)), 1
  {
    var held := Held(records[name].fields[k].ty);
    held.Some? ==> Definable(records, held.value)
  }

  ghost predicate MayHold(records: Records, ty: CType)
    requires AcyclicRecords(records)
  {
    Held(ty).Some? ==> Definable(records, Held(ty).value)
  }

  /** A table of converted structures, with every structure they hold. */
  ghost predicate Built(records: Records, structs: Structs) {
    forall name | name in structs :: BuiltOne(records, structs, name)
  }

  ghost predicate BuiltOne(records: Records, structs: Structs, name: string)
    requires name in structs
  {
    && name in records && FixedWidth(records[name]) && structs[name] == FieldsOf(records[name])
    && forall k | 0 <= k < |records[name].fields| :: HoldsBuilt(records, structs, name, k)
  }

  ghost predicate HoldsBuilt(records: Records, structs: Structs, name: string, k: nat)
    requires name in records && k < |records[name].fields|
  {
    var held := Held(records[name].fields[k].ty);
    held.Some? ==> held.value in structs
  }

  /** Names with the records they hold, except undeclared ones. */
  ghost predicate ClosedNames(records: Records, names: set<string>) {
    forall name, k | name in names && name in records && 0 <= k < |records[name].fields| :: HoldsNamed(records, names, name, k)
  }

  ghost predicate HoldsNamed(records: Records, names: set<string>, name: string, k: nat)
    requires name in records && k < |records[name].fields|
  {
    var held := Held(records[name].fields[k].ty);
    held.Some? ==> held.value in names
  }

  lemma {:induction false} HoldsStays(records: Records, before: Structs, after: Structs, name: string, k: nat)
    requires name in records && k <= |records[name].fields| && Keeps(before, after)
    requires forall j | 0 <= j < k :: HoldsBuilt(records, before, name, j)
    ensures forall j | 0 <= j < k :: HoldsBuilt(records, after, name, j)
  {
    forall j | 0 <= j < k ensures HoldsBuilt(records, after, name, j) {
      assert HoldsBuilt(records, before, name, j);
    }
  }

  /** Everything defined is needed: in every closed set with what was there and `start`. */
  ghost predicate Needed(records: Records, before: Structs, after: Structs, start: Option<string>) {
    forall names: set<string> |
      ClosedNames(records, names) && before.Keys <= names && (start.Some? ==> start.value in names) :: after.Keys <= names
  }

  ghost predicate Keeps(before: Structs, after: Structs) {
    forall name | name in before :: name in after && after[name] == before[name]
  }

  lemma {:induction false} BuiltDefinable(records: Records, structs: Structs, name: string)
    requires AcyclicRecords(records) && Built(records, structs) && name in structs
    ensures Definable(records, name)
    decreases Depth(records, Some(name))
  {
    assert BuiltOne(records, structs, name);
    forall k | 0 <= k < |records[name].fields|
      ensures Depth(records, Held(records[name].fields[k].ty)) < Depth(records, Some(name))
      ensures HeldDefinable(records, name, k)
    {
      HeldDeeper(records, name, k);
      assert HoldsBuilt(records, structs, name, k);
      var held := Held(records[name].fields[k].ty);
      if held.Some? {
        BuiltDefinable(records, structs, held.value);
      }
    }
  }

  lemma {:induction false} BuiltGrows(records: Records, before: Structs, name: string)
    requires Built(records, before) && name in records && FixedWidth(records[name])
    requires forall k | 0 <= k < |records[name].fields| :: HoldsBuilt(records, before, name, k)
    ensures Built(records, before[name := FieldsOf(records[name])])
  {
    var after := before[name := FieldsOf(records[name])];
    forall other | other in after ensures BuiltOne(records, after, other) {
      if other != name {
        assert BuiltOne(records, before, other);
        forall k | 0 <= k < |records[other].fields| ensures HoldsBuilt(records, after, other, k) {
          assert HoldsBuilt(records, before, other, k);
        }
      } else {
        forall k | 0 <= k < |records[name].fields| ensures HoldsBuilt(records, after, name, k) {
          assert HoldsBuilt(records, before, name, k);
        }
      }
    }
  }

  lemma {:induction false} NeededInStep(records: Records, before: Structs, middle: Structs, after: Structs,
                                        name: string, k: nat)
    requires name in records && k < |records[name].fields|
    requires Needed(records, before, middle, Some(name))
    requires Needed(records, middle, after, Held(records[name].fields[k].ty))
    ensures Needed(records, before, after, Some(name))
  {
    forall names: set<string> | ClosedNames(records, names) && before.Keys <= names && name in names ensures after.Keys <= names {
      assert HoldsNamed(records, names, name, k);
    }
  }

  /** The structures defined so far. */
  class Table {
    var structs: Structs

    constructor ()
      ensures structs == map[]
    {
      structs := map[];
    }

    /** Convert a fixed-width member, defining the structures it holds. */
    method FixedField(ty: CType, records: Records) returns (result: Option<FieldType>)
      requires AcyclicRecords(records) && Built(records, structs)
      modifies this
      ensures Built(records, structs) && Keeps(old(structs), structs) && Needed(records, old(structs), structs, Held(ty))
      ensures result == if MayHold(records, ty) then FixedType(ty) else None
      ensures result.Some? && Held(ty).Some? ==> Held(ty).value in structs
      decreases Depth(records, Held(ty)), 2
    {
      hide Built, Needed, ClosedNames, Definable;
      match ty {
        case CScalar(scalar) =>
          Unneeded(records, structs, None);
          return Some(ScalarField(scalar));
        case CRecordType(name) =>
          var defined := DefineStruct(name, records);
          return if defined then Some(StructField(name)) else None;
        case CArray(element, len, false) =>
          var converted := ElementType(element, records);
          if converted.None? || len >= 0x1_0000 {
            return None;
          }
          return Some(ArrayField(converted.value, len));
        case _ =>
          Unneeded(records, structs, Held(ty));
          return None;
      }
    }

    method ElementType(ty: CType, records: Records) returns (result: Option<Element>)
      requires AcyclicRecords(records) && Built(records, structs)
      modifies this
      ensures Built(records, structs) && Keeps(old(structs), structs)
      ensures Needed(records, old(structs), structs, if ty.CRecordType? then Some(ty.name) else None)
      ensures result == if ty.CRecordType? && !Definable(records, ty.name) then None else ElementOf(ty)
      ensures result.Some? && ty.CRecordType? ==> ty.name in structs
      decreases Depth(records, if ty.CRecordType? then Some(ty.name) else None), 1
    {
      hide Built, Needed, ClosedNames, Definable;
      match ty {
        case CScalar(scalar) =>
          Unneeded(records, structs, None);
          return Some(IntegerElement(scalar));
        case CRecordType(name) =>
          var defined := DefineStruct(name, records);
          return if defined then Some(StructElement(name)) else None;
        case _ =>
          Unneeded(records, structs, None);
          return None;
      }
    }

    /** Define a structure after those it holds; a failure keeps what was defined before it. */
    method DefineStruct(name: string, records: Records) returns (defined: bool)
      requires AcyclicRecords(records) && Built(records, structs)
      modifies this
      ensures Built(records, structs) && Keeps(old(structs), structs) && Needed(records, old(structs), structs, Some(name))
      ensures defined <==> Definable(records, name)
      ensures defined ==> name in structs
      decreases Depth(records, Some(name)), 0
    {
      hide Built, Needed, ClosedNames, Definable;
      Unneeded(records, structs, Some(name));
      if name in structs {
        BuiltDefinable(records, structs, name);
        return true;
      }
      if name !in records || records[name].isUnion || !records[name].packed {
        Undefinable(records, name);
        return false;
      }
      var record := records[name];
      var fields: seq<Field> := [];
      for k := 0 to |record.fields|
        invariant Built(records, structs) && Keeps(old(structs), structs) && Needed(records, old(structs), structs, Some(name))
        invariant |fields| == k
        invariant forall j | 0 <= j < k :: FixedType(record.fields[j].ty).Some? && MayHold(records, record.fields[j].ty)
        invariant forall j | 0 <= j < k :: fields[j] == Field(record.fields[j].name, FixedType(record.fields[j].ty).value)
        invariant forall j | 0 <= j < k :: HoldsBuilt(records, structs, name, j)
      {
        HeldDeeper(records, name, k);
        ghost var before := structs;
        var ty := FixedField(record.fields[k].ty, records);
        NeededInStep(records, old(structs), before, structs, name, k);
        HoldsStays(records, before, structs, name, k);
        if ty.None? {
          NotAllFixed(records, name, k);
          return false;
        }
        fields := fields + [Field(record.fields[k].name, ty.value)];
      }
      AllFixed(records, name);
      assert fields == FieldsOf(record);
      BuiltGrows(records, structs, name);
      NeededAdds(records, old(structs), structs, name, fields);
      structs := structs[name := fields];
      return true;
    }

    /** Copy from `all` the structures `fields` hold, and those they hold. */
    method Collect(fields: seq<Field>, all: Structs)
      requires Agree(structs, all)
      modifies this
      ensures Found(all, old(structs), structs) && AllGathered(all, structs.Keys, fields)
      ensures Least(all, old(structs).Keys, structs.Keys, fields)
      decreases |all.Keys - structs.Keys|, |fields|
    {
      for k := 0 to |fields|
        invariant Agree(structs, all)
        invariant Found(all, old(structs), structs) && AllGathered(all, structs.Keys, fields[..k])
        invariant Least(all, old(structs).Keys, structs.Keys, fields)
      {
        hide AllGathered, Least, Found, Agree;
        var held := fields[k].ty.Structure();
        ghost var before := structs;
        if held.Some? && held.value in all {
          var name := held.value;
          var inner := all[name];
          var isNew := name !in structs;
          structs := structs[name := inner];
          if isNew {
            FewerLeft(all, before, old(structs), name);
            ghost var started := structs;
            AgreeStays(all, before, name);
            Collect(inner, all);
            CollectedInner(all, old(structs), before, started, structs, fields, k, name);
          } else {
            AlreadyCollected(all, before, fields, k, name);
          }
        } else {
          NothingToCollect(all, structs, fields, k);
        }
      }
      assert fields[..|fields|] == fields;
    }
  }

  // ----- steps of the conversion

  lemma {:induction false} Unneeded(records: Records, structs: Structs, start: Option<string>)
    ensures Needed(records, structs, structs, start)
  {
  }

  lemma {:induction false} NeededAdds(records: Records, before: Structs, after: Structs, name: string,
                                      fields: seq<Field>)
    requires Needed(records, before, after, Some(name))
    ensures Needed(records, before, after[name := fields], Some(name))
  {
  }

  lemma {:induction false} Undefinable(records: Records, name: string)
    requires AcyclicRecords(records)
    requires name !in records || records[name].isUnion || !records[name].packed
    ensures !Definable(records, name)
  {
  }

  lemma {:induction false} NotAllFixed(records: Records, name: string, k: nat)
    requires AcyclicRecords(records) && name in records && k < |records[name].fields|
    requires FixedType(records[name].fields[k].ty).None? || !MayHold(records, records[name].fields[k].ty)
    ensures !Definable(records, name)
  {
    if Definable(records, name) {
      FieldDefinable(records, name, k);
    }
  }

  lemma {:induction false} FieldDefinable(records: Records, name: string, k: nat)
    requires AcyclicRecords(records) && Definable(records, name) && k < |records[name].fields|
    ensures FixedType(records[name].fields[k].ty).Some? && MayHold(records, records[name].fields[k].ty)
  {
    HeldDeeper(records, name, k);
    assert HeldDefinable(records, name, k);
  }

  lemma {:induction false} AllFixed(records: Records, name: string)
    requires AcyclicRecords(records) && name in records && !records[name].isUnion && records[name].packed
    requires forall j | 0 <= j < |records[name].fields| ::
               FixedType(records[name].fields[j].ty).Some? && MayHold(records, records[name].fields[j].ty)
    ensures FixedWidth(records[name]) && Definable(records, name)
  {
    forall k | 0 <= k < |records[name].fields|
      ensures Depth(records, Held(records[name].fields[k].ty)) < Depth(records, Some(name))
      ensures HeldDefinable(records, name, k)
    {
      HeldDeeper(records, name, k);
    }
  }

  // ----- collecting structures

  /** A member's structure, if defined, is among `names`. */
  predicate Gathered(all: Structs, names: set<string>, field: Field) {
    var held := field.ty.Structure();
    held.Some? && held.value in all ==> held.value in names
  }

  predicate AllGathered(all: Structs, names: set<string>, fields: seq<Field>) {
    forall j | 0 <= j < |fields| :: Gathered(all, names, fields[j])
  }

  /** Names with every defined structure they hold. */
  ghost predicate ClosedFields(all: Structs, names: set<string>) {
    forall name | name in names && name in all :: AllGathered(all, names, all[name])
  }

  ghost predicate Agree(structs: Structs, all: Structs) {
    forall name | name in structs && name in all :: structs[name] == all[name]
  }

  /** What was added comes from `all`, with every defined structure it holds. */
  ghost predicate Found(all: Structs, start: Structs, now: Structs) {
    && Keeps(start, now)
    && forall name | name in now && name !in start :: name in all && now[name] == all[name] && AllGathered(all, now.Keys, all[name])
  }

  /** Every set of names with `start`, closed, and with what `fields` hold, has all of `now`. */
  ghost predicate Least(all: Structs, start: set<string>, now: set<string>, fields: seq<Field>) {
    forall names | ClosedFields(all, names) && start <= names && AllGathered(all, names, fields) :: now <= names
  }

  lemma {:induction false} FewerLeft(all: Structs, before: Structs, start: Structs, name: string)
    requires name in all && name !in before && Found(all, start, before)
    ensures |all.Keys - before[name := all[name]].Keys| < |all.Keys - start.Keys|
  {
    var left, leftNow := all.Keys - start.Keys, all.Keys - before[name := all[name]].Keys;
    assert leftNow <= left - {name};
    SmallerSet(leftNow, left - {name});
  }

  lemma {:induction false} SmallerSet<T>(a: set<T>, b: set<T>)
    requires a <= b
    ensures |a| <= |b|
  {
    assert b == a + (b - a);
    assert |b| == |a| + |b - a|;
  }

  lemma {:induction false} AgreeStays(all: Structs, before: Structs, name: string)
    requires Agree(before, all) && name in all
    ensures Agree(before[name := all[name]], all)
  {
  }

  lemma {:induction false} MoreGathered(all: Structs, before: set<string>, after: set<string>, fields: seq<Field>)
    requires before <= after && AllGathered(all, before, fields)
    ensures AllGathered(all, after, fields)
  {
  }

  lemma {:induction false} OneMoreGathered(all: Structs, names: set<string>, fields: seq<Field>, k: nat)
    requires k < |fields| && AllGathered(all, names, fields[..k]) && Gathered(all, names, fields[k])
    ensures AllGathered(all, names, fields[..k + 1])
  {
    assert fields[..k + 1] == fields[..k] + [fields[k]];
  }

  lemma {:induction false} NothingToCollect(all: Structs, structs: Structs, fields: seq<Field>, k: nat)
    requires k < |fields| && AllGathered(all, structs.Keys, fields[..k])
    requires var held := fields[k].ty.Structure(); held.None? || held.value !in all
    ensures AllGathered(all, structs.Keys, fields[..k + 1])
  {
    OneMoreGathered(all, structs.Keys, fields, k);
  }

  lemma {:induction false} AlreadyCollected(all: Structs, before: Structs, fields: seq<Field>, k: nat, name: string)
    requires k < |fields| && AllGathered(all, before.Keys, fields[..k]) && fields[k].ty.Structure() == Some(name)
    requires Agree(before, all) && name in all && name in before
    ensures before[name := all[name]] == before
    ensures AllGathered(all, before.Keys, fields[..k + 1])
  {
    OneMoreGathered(all, before.Keys, fields, k);
  }

  lemma {:induction false} CollectedInner(all: Structs, start: Structs, before: Structs, started: Structs,
                                          after: Structs, fields: seq<Field>, k: nat, name: string)
    requires k < |fields| && fields[k].ty.Structure() == Some(name) && name in all && name !in before
    requires Found(all, start, before) && AllGathered(all, before.Keys, fields[..k]) && Least(all, start.Keys, before.Keys, fields)
    requires started == before[name := all[name]] && Agree(started, all)
    requires Found(all, started, after) && AllGathered(all, after.Keys, all[name]) && Least(all, started.Keys, after.Keys, all[name])
    ensures Agree(after, all) && Found(all, start, after) && AllGathered(all, after.Keys, fields[..k + 1])
    ensures Least(all, start.Keys, after.Keys, fields)
  {
    InnerFound(all, start, before, started, after, name);
    MoreGathered(all, before.Keys, after.Keys, fields[..k]);
    OneMoreGathered(all, after.Keys, fields, k);
    assert started.Keys == before.Keys + {name};
    StillLeast(all, start.Keys, before.Keys, started.Keys, after.Keys, fields, k, name);
  }

  lemma {:induction false} InnerFound(all: Structs, start: Structs, before: Structs, started: Structs,
                                      after: Structs, name: string)
    requires name in all && name !in before && Found(all, start, before)
    requires started == before[name := all[name]]
    requires Found(all, started, after) && AllGathered(all, after.Keys, all[name])
    ensures Found(all, start, after)
  {
    hide AllGathered;
    forall n | n in after && n !in start ensures n in all && after[n] == all[n] && AllGathered(all, after.Keys, all[n]) {
      if n in before {
        MoreGathered(all, before.Keys, after.Keys, all[n]);
      }
    }
  }

  /** What the structure's own fields need, everything needs that holds the structure. */
  lemma {:induction false} StillLeast(all: Structs, start: set<string>, before: set<string>, started: set<string>,
                                      after: set<string>, fields: seq<Field>, k: nat, name: string)
    requires k < |fields| && fields[k].ty.Structure() == Some(name) && name in all && started == before + {name}
    requires Least(all, start, before, fields) && Least(all, started, after, all[name])
    ensures Least(all, start, after, fields)
  {
    forall names | ClosedFields(all, names) && start <= names && AllGathered(all, names, fields) ensures after <= names {
      assert Gathered(all, names, fields[k]);
      assert AllGathered(all, names, all[name]);
    }
  }
}

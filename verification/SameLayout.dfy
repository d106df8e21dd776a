/** Layouts that differ in their members' names only, and so encode alike
    (crates/stm32wb-hci-macros/src/command.rs). */
module SameLayout {
  import opened Options
  import opened Bytes
  import opened Layout
  import opened Plan
  import opened DirectCall
  import opened RoundTrip

  /** A member's type, with the member it refers to replaced by its position. */
  datatype Form =
    | Plain(ty: FieldType)
    | CountedBy(element: Element, count: nat, capacity: u16)
    | SelectedBy(selector: nat, variants: seq<Variant>)

  predicate ReferencesExist(fields: seq<Field>) {
    forall j | 0 <= j < |fields| :: ReferenceExists(fields, j)
  }

  predicate ReferenceExists(fields: seq<Field>, j: nat)
    requires j < |fields|
  {
    fields[j].ty.Reference().Some? ==> Position(fields, fields[j].ty.Reference().value).Some?
  }

  function FormOf(fields: seq<Field>, j: nat): Form
    requires j < |fields| && ReferenceExists(fields, j)
  {
    match fields[j].ty
    case CountedField(element, count, capacity) => CountedBy(element, Position(fields, count).value, capacity)
    case UnionField(selector, variants) => SelectedBy(Position(fields, selector).value, variants)
    case ty => Plain(ty)
  }

  predicate SameLayout(left: seq<Field>, right: seq<Field>)
    requires ReferencesExist(left) && ReferencesExist(right)
  {
    |left| == |right| && forall j | 0 <= j < |left| :: SameForm(left, right, j)
  }

  predicate SameForm(left: seq<Field>, right: seq<Field>, j: nat)
    requires j < |left| && j < |right|
  {
    && ReferenceExists(left, j) && ReferenceExists(right, j)
    && FormOf(left, j) == FormOf(right, j)
  }

  lemma {:induction false} ValidReferences(structs: Structs, fields: seq<Field>)
    requires Acyclic(structs) && ValidLayout(structs, fields)
    ensures ReferencesExist(fields)
  {
    forall j | 0 <= j < |fields| && fields[j].ty.Reference().Some?
      ensures ReferenceExists(fields, j)
    {
      ReferenceIsEarlier(structs, fields, j);
    }
  }

  lemma {:induction false} Equivalence(a: seq<Field>, b: seq<Field>, c: seq<Field>)
    requires ReferencesExist(a) && ReferencesExist(b) && ReferencesExist(c)
    ensures SameLayout(a, a)
    ensures SameLayout(a, b) ==> SameLayout(b, a)
    ensures SameLayout(a, b) && SameLayout(b, c) ==> SameLayout(a, c)
  {
    assert forall j | 0 <= j < |a| :: SameForm(a, a, j);
    if SameLayout(a, b) {
      forall j | 0 <= j < |b|
        ensures SameForm(b, a, j)
        ensures SameLayout(b, c) ==> SameForm(a, c, j)
      {
        assert SameForm(a, b, j);
        assert SameLayout(b, c) ==> SameForm(b, c, j);
      }
    }
  }

  // ----- members of one layout at the positions of the other

  /** Both layouts are valid, and members at the same position have the same form. */
  ghost predicate Twins(structs: Structs, left: seq<Field>, right: seq<Field>) {
    && Acyclic(structs) && ValidLayout(structs, left) && ValidLayout(structs, right)
    && ReferencesExist(left) && ReferencesExist(right) && SameLayout(left, right)
  }

  lemma {:induction false} TwinAt(structs: Structs, left: seq<Field>, right: seq<Field>, j: nat)
    requires Twins(structs, left, right) && j < |left|
    ensures |left| == |right|
    ensures match left[j].ty
            case CountedField(element, _, capacity) =>
              right[j].ty.CountedField? && right[j].ty.element == element && right[j].ty.capacity == capacity
            case UnionField(_, variants) => right[j].ty.UnionField? && right[j].ty.variants == variants
            case ty => right[j].ty == ty
    ensures left[j].ty.Reference().Some? <==> right[j].ty.Reference().Some?
    ensures left[j].ty.Reference().Some? ==>
              var p := Position(left, left[j].ty.Reference().value);
              p.Some? && p.value < j && p == Position(right, right[j].ty.Reference().value)
  {
    assert SameForm(left, right, j);
    if left[j].ty.Reference().Some? {
      ReferenceIsEarlier(structs, left, j);
    }
    hide Twins, Position;
    assert FormOf(left, j) == FormOf(right, j);
    assert left[j].ty.CountedField? || left[j].ty.UnionField? || FormOf(left, j) == Plain(left[j].ty);
    assert right[j].ty.CountedField? || right[j].ty.UnionField? || FormOf(right, j) == Plain(right[j].ty);
  }

  /** A member refers to the `j`th by name exactly if its position is `j`. */
  lemma {:induction false} RefersTo(structs: Structs, fields: seq<Field>, i: nat, j: nat)
    requires Acyclic(structs) && ValidLayout(structs, fields) && i < |fields| && j < |fields|
    ensures fields[i].ty.Reference() == Some(fields[j].name)
            <==> fields[i].ty.Reference().Some? && Position(fields, fields[i].ty.Reference().value) == Some(j)
  {
    NamedAt(structs, fields, j);
  }

  lemma {:induction false} SameReference(structs: Structs, left: seq<Field>, right: seq<Field>, i: nat, j: nat)
    requires Twins(structs, left, right) && i < |left| && j < |left| && |left| == |right|
    ensures left[i].ty.Reference() == Some(left[j].name) <==> right[i].ty.Reference() == Some(right[j].name)
  {
    TwinAt(structs, left, right, i);
    RefersTo(structs, left, i, j);
    RefersTo(structs, right, i, j);
    hide *;
  }

  lemma {:induction false} SameDependent(structs: Structs, left: seq<Field>, right: seq<Field>, j: nat)
    requires Twins(structs, left, right) && j < |left| && |left| == |right|
    ensures Dependent(left, left[j].name) == Dependent(right, right[j].name)
  {
    forall i | 0 <= i < |left|
      ensures left[i].ty.Reference() == Some(left[j].name) <==> right[i].ty.Reference() == Some(right[j].name)
    {
      SameReference(structs, left, right, i, j);
    }
    hide Twins, Dependent;
  }

  lemma {:induction false} SameFieldOf(structs: Structs, left: seq<Field>, right: seq<Field>, k: nat)
    requires Twins(structs, left, right) && k <= |left| && |left| == |right|
    ensures FieldOf(left, k) == FieldOf(right, k)
  {
    hide Twins;
    if k > 0 {
      SameFieldOf(structs, left, right, k - 1);
      SameDependent(structs, left, right, k - 1);
    }
  }

  lemma {:induction false} SameMemberPlan(structs: Structs, left: seq<Field>, right: seq<Field>, j: nat, side: Side)
    requires Twins(structs, left, right) && Acyclic(structs) && j < |left| && |left| == |right|
    ensures PlanMember(structs, left, j, side) == PlanMember(structs, right, j, side)
  {
    TwinAt(structs, left, right, j);
    SameDependent(structs, left, right, j);
    SameFieldOf(structs, left, right, j);
    var dependent := Dependent(left, left[j].name);
    if dependent.Some? {
      TwinAt(structs, left, right, dependent.value);
      SameFieldOf(structs, left, right, dependent.value);
    }
    if left[j].ty.Reference().Some? {
      TwinAt(structs, left, right, Position(left, left[j].ty.Reference().value).value);
    }
    hide Twins, Dependent, Position, FieldOf, ShapeOf;
  }

  /** Same layouts are planned alike: declared values encode to the same bytes by position,
      and counts and selectors serve the same fields. */
  lemma {:induction false} SamePlan(structs: Structs, left: seq<Field>, right: seq<Field>, side: Side)
    requires Acyclic(structs) && ValidLayout(structs, left) && ValidLayout(structs, right)
    requires ReferencesExist(left) && ReferencesExist(right) && SameLayout(left, right)
    ensures PlanOf(structs, left, side) == PlanOf(structs, right, side)
  {
    assert Twins(structs, left, right);
    forall j | 0 <= j < |left|
      ensures PlanMember(structs, left, j, side) == PlanMember(structs, right, j, side)
    {
      SameMemberPlan(structs, left, right, j, side);
    }
    hide Twins, ValidLayout, ReferencesExist, PlanMember;
    var l, r := PlanOf(structs, left, side), PlanOf(structs, right, side);
    if l.Some? {
      assert l.value == r.value;
    }
  }

  lemma {:induction false} SameBoundsFrom(structs: Structs, left: seq<Field>, right: seq<Field>, k: nat)
    requires Acyclic(structs) && Twins(structs, left, right) && k <= |left| && |left| == |right|
    ensures BoundsFrom(structs, left, k) == BoundsFrom(structs, right, k)
    decreases |left| - k
  {
    hide Twins;
    if k < |left| {
      SameBoundsFrom(structs, left, right, k + 1);
      TwinAt(structs, left, right, k);
    }
  }

  // ----- reading

  /** The integers known from either layout are the same by position. */
  ghost predicate SameKnown(left: seq<Field>, right: seq<Field>, k: nat, l: map<string, int>, r: map<string, int>)
    requires k <= |left| && |left| == |right|
  {
    forall i | 0 <= i < k && left[i].ty.ScalarField? ::
      left[i].name in l && right[i].name in r && l[left[i].name] == r[right[i].name]
  }

  lemma {:induction false} SameReadMember(structs: Structs, left: seq<Field>, right: seq<Field>, k: nat,
                                          l: map<string, int>, r: map<string, int>, rest: seq<byte>)
    requires Acyclic(structs) && Twins(structs, left, right) && k < |left| && |left| == |right|
    requires SameKnown(left, right, k, l, r)
    ensures ReadMember(structs, left[k].ty, l, rest) == ReadMember(structs, right[k].ty, r, rest)
  {
    TwinAt(structs, left, right, k);
    if left[k].ty.Reference().Some? {
      var p := Position(left, left[k].ty.Reference().value).value;
      ReferenceIsEarlier(structs, left, k) by { hide ReadMember; }
      assert left[p].name == left[k].ty.Reference().value && right[p].name == right[k].ty.Reference().value;
    }
    hide Twins, Position, TakeItems, TakeFrom;
  }

  lemma {:induction false} LearnsSame(structs: Structs, left: seq<Field>, right: seq<Field>, k: nat,
                                      l: map<string, int>, r: map<string, int>, arg: Arg)
    requires Acyclic(structs) && Twins(structs, left, right) && k < |left| && |left| == |right|
    requires SameKnown(left, right, k, l, r)
    requires left[k].ty.ScalarField? ==> arg.Integral?
    ensures SameKnown(left, right, k + 1, Learn(l, left[k], arg), Learn(r, right[k], arg))
  {
    TwinAt(structs, left, right, k);
    assert ValidMember(structs, left, k) && ValidMember(structs, right, k);
    hide Twins;
  }

  lemma {:induction false} SameReadsFrom(structs: Structs, left: seq<Field>, right: seq<Field>, k: nat,
                                         l: map<string, int>, r: map<string, int>, rest: seq<byte>)
    requires Acyclic(structs) && Twins(structs, left, right) && k <= |left| && |left| == |right|
    requires SameKnown(left, right, k, l, r)
    ensures ReadFrom(structs, left, k, l, rest) == ReadFrom(structs, right, k, r, rest)
    decreases |left| - k
  {
    hide Twins, SameKnown, ReadMember, Learn;
    if k < |left| {
      SameReadMember(structs, left, right, k, l, r, rest);
      var first := ReadMember(structs, left[k].ty, l, rest);
      if first.Some? {
        var arg := first.value.value;
        ScalarsAreIntegral(structs, left[k].ty, l, rest);
        LearnsSame(structs, left, right, k, l, r, arg);
        SameReadsFrom(structs, left, right, k + 1, Learn(l, left[k], arg), Learn(r, right[k], arg), first.value.rest);
      }
    }
  }

  lemma {:induction false} ScalarsAreIntegral(structs: Structs, ty: FieldType, known: map<string, int>, rest: seq<byte>)
    requires Acyclic(structs)
    ensures var read := ReadMember(structs, ty, known, rest);
            ty.ScalarField? && read.Some? ==> read.value.value.Integral?
  {
  }

  /** Renaming the members of a layout changes neither its envelope, nor what any list of
      values encodes to, nor what any bytes are read as. */
  lemma {:induction false} RenamingInvariance(structs: Structs, left: seq<Field>, right: seq<Field>)
    requires Acyclic(structs) && ValidLayout(structs, left) && ValidLayout(structs, right)
    requires ReferencesExist(left) && ReferencesExist(right) && SameLayout(left, right)
    ensures Bounds(structs, left) == Bounds(structs, right)
    ensures forall side :: PlanOf(structs, left, side) == PlanOf(structs, right, side)
    ensures forall bytes :: ReadFrom(structs, left, 0, map[], bytes) == ReadFrom(structs, right, 0, map[], bytes)
  {
    assert Twins(structs, left, right);
    SameBoundsFrom(structs, left, right, 0);
    forall side ensures PlanOf(structs, left, side) == PlanOf(structs, right, side) {
      SamePlan(structs, left, right, side);
    }
    forall bytes ensures ReadFrom(structs, left, 0, map[], bytes) == ReadFrom(structs, right, 0, map[], bytes) {
      SameReadsFrom(structs, left, right, 0, map[], map[], bytes);
    }
    hide *;
  }

  // ----- layouts are the same exactly up to renaming

  predicate DistinctNames(fields: seq<Field>) {
    forall i, j | 0 <= i < j < |fields| :: fields[i].name != fields[j].name
  }

  /** A type with the member it refers to renamed. */
  predicate TypeRenamed(rename: map<string, string>, left: FieldType, right: FieldType) {
    match left
    case CountedField(element, count, capacity) => count in rename && right == CountedField(element, rename[count], capacity)
    case UnionField(selector, variants) => selector in rename && right == UnionField(rename[selector], variants)
    case _ => right == left
  }

  predicate FieldRenamed(rename: map<string, string>, left: Field, right: Field) {
    left.name in rename && right.name == rename[left.name] && TypeRenamed(rename, left.ty, right.ty)
  }

  /** `right` is `left` with its members renamed. */
  predicate Renamed(rename: map<string, string>, left: seq<Field>, right: seq<Field>) {
    |left| == |right| && forall j | 0 <= j < |left| :: FieldRenamed(rename, left[j], right[j])
  }

  lemma {:induction false} OnlyPosition(fields: seq<Field>, j: nat)
    requires DistinctNames(fields) && j < |fields|
    ensures Position(fields, fields[j].name) == Some(j)
  {
    var p := Position(fields, fields[j].name);
    assert p.Some?;
  }

  lemma {:induction false} RenamedForm(rename: map<string, string>, left: seq<Field>, right: seq<Field>, j: nat)
    requires DistinctNames(left) && DistinctNames(right) && Renamed(rename, left, right) && j < |left|
    requires ReferencesExist(left)
    ensures ReferenceExists(left, j) && j < |right| && ReferenceExists(right, j) && FormOf(left, j) == FormOf(right, j)
  {
    assert FieldRenamed(rename, left[j], right[j]) && ReferenceExists(left, j);
    if left[j].ty.Reference().Some? {
      var p := Position(left, left[j].ty.Reference().value).value;
      assert FieldRenamed(rename, left[p], right[p]);
      OnlyPosition(right, p);
    }
  }

  lemma {:induction false} FormRenamed(rename: map<string, string>, left: seq<Field>, right: seq<Field>, j: nat)
    requires ReferencesExist(left) && ReferencesExist(right) && SameLayout(left, right) && j < |left|
    requires DistinctNames(left)
    requires forall i | 0 <= i < |left| :: left[i].name in rename && i < |right| && rename[left[i].name] == right[i].name
    ensures j < |right| && FieldRenamed(rename, left[j], right[j])
  {
    assert SameForm(left, right, j);
    if left[j].ty.Reference().Some? {
      var p := Position(left, left[j].ty.Reference().value).value;
      assert left[p].name == left[j].ty.Reference().value;
    }
    hide Position;
    assert FormOf(left, j) == FormOf(right, j);
  }

  /** Two layouts are the same exactly if one is the other with its members renamed. */
  lemma {:induction false} SameUpToNames(left: seq<Field>, right: seq<Field>)
    requires DistinctNames(left) && DistinctNames(right) && ReferencesExist(left) && ReferencesExist(right)
    ensures SameLayout(left, right) <==> exists rename :: Renamed(rename, left, right)
  {
    if SameLayout(left, right) {
      var names := set j | 0 <= j < |left| :: left[j].name;
      var rename := map name | name in names && Position(left, name).Some? :: right[Position(left, name).value].name;
      forall j | 0 <= j < |left| ensures left[j].name in rename && rename[left[j].name] == right[j].name {
        assert left[j].name in names;
        OnlyPosition(left, j);
      }
      forall j | 0 <= j < |left| ensures FieldRenamed(rename, left[j], right[j]) {
        FormRenamed(rename, left, right, j);
      }
      assert Renamed(rename, left, right);
    }
    if rename :| Renamed(rename, left, right) {
      forall j | 0 <= j < |left| ensures SameForm(left, right, j) {
        RenamedForm(rename, left, right, j);
      }
    }
  }
}

/** How each member of a layout is encoded: `plan` matches the declared fields to the
    members, deriving counts and selectors from the fields they serve
    (crates/stm32wb-hci-macros/src/command.rs). */
module Plan {
  import opened Options
  import opened Bytes
  import opened Layout

  /** One encoded element: an integer, or a packed structure as its bytes. */
  datatype Item = Number(n: int) | Packed(bytes: seq<byte>)

  /** What an array's elements, or a single member, are encoded as. */
  datatype Shape = Integer(scalar: Scalar) | Struct(width: u16) {
    function Width(): nat {
      match this
      case Integer(scalar) => scalar.Width()
      case Struct(width) => width
    }

    predicate Fits(item: Item) {
      match this
      case Integer(scalar) => item.Number? && scalar.Holds(item.n)
      case Struct(width) => item.Packed? && |item.bytes| == width
    }

    function Encode(item: Item): (bytes: seq<byte>)
      ensures Fits(item) ==> |bytes| == Width()
    {
      match item
      case Number(n) => if Integer? then scalar.Encode(n) else []
      case Packed(bytes) => bytes
    }

    function Decode(bytes: seq<byte>): Item {
      match this
      case Integer(scalar) => Number(scalar.Decode(bytes))
      case Struct(_) => Packed(bytes)
    }
  }

  /** The value of a declared field. */
  datatype Value =
    | One(item: Item)
    | Many(items: seq<Item>)
    | Alternative(tag: u64, bytes: seq<byte>)
    | Maybe(supplied: Option<int>)

  /** How one member is encoded, in layout order. Fields are declared positions. */
  datatype Slot =
    | Fixed(field: nat, shape: Shape)
    | FixedArray(field: nat, shape: Shape, len: u16)
    | Count(counted: nat, scalar: Scalar)
    | Elements(field: nat, shape: Shape, capacity: u16)
    | Selector(union: nat, scalar: Scalar)
    | Union(field: nat, variants: seq<Variant>, selector: Scalar)
    | Optional(field: nat, scalar: Scalar)

  datatype Side = Params | Returns

  // ----- derived members

  /** The first member whose count or selector is called `name`. */
  function Dependent(fields: seq<Field>, name: string): (d: Option<nat>)
    ensures d.Some? ==> d.value < |fields| && fields[d.value].ty.Reference() == Some(name)
    ensures d.Some? ==> forall i | 0 <= i < d.value :: fields[i].ty.Reference() != Some(name)
    ensures d.None? ==> forall i | 0 <= i < |fields| :: fields[i].ty.Reference() != Some(name)
  {
    if fields == [] then None else
    var first := Dependent(fields[..|fields| - 1], name);
    if first.Some? then first
    else if fields[|fields| - 1].ty.Reference() == Some(name) then Some(|fields| - 1)
    else None
  }

  /** Members that are derived are not declared. */
  predicate Derived(fields: seq<Field>, j: nat)
    requires j < |fields|
  {
    Dependent(fields, fields[j].name).Some?
  }

  /** How many of the first `j` members are declared: the position of the field
      declaring the `j`th, if it is declared. */
  function FieldOf(fields: seq<Field>, j: nat): nat
    requires j <= |fields|
  {
    if j == 0 then 0 else FieldOf(fields, j - 1) + if Derived(fields, j - 1) then 0 else 1
  }

  /** The position of the first member called `name`. */
  function Position(fields: seq<Field>, name: string): (p: Option<nat>)
    ensures p.Some? ==> p.value < |fields| && fields[p.value].name == name
    ensures p.Some? ==> forall i | 0 <= i < p.value :: fields[i].name != name
    ensures p.None? ==> forall i | 0 <= i < |fields| :: fields[i].name != name
  {
    if fields == [] then None else
    var first := Position(fields[..|fields| - 1], name);
    if first.Some? then first
    else if fields[|fields| - 1].name == name then Some(|fields| - 1)
    else None
  }

  /** The integer member called `name`. */
  function IntegerNamed(fields: seq<Field>, name: string): Option<Scalar> {
    var p := Position(fields, name);
    if p.Some? && fields[p.value].ty.ScalarField? then Some(fields[p.value].ty.scalar) else None
  }

  function ShapeOf(structs: Structs, element: Element): Option<Shape>
    requires Acyclic(structs)
  {
    match element
    case IntegerElement(scalar) => Some(Integer(scalar))
    case StructElement(name) =>
      var width := StructWidth(structs, name);
      if width.Some? then Some(Struct(width.value)) else None
  }

  // ----- the plan

  function PlanMember(structs: Structs, fields: seq<Field>, j: nat, side: Side): Option<Slot>
    requires Acyclic(structs) && j < |fields|
  {
    var dependent := Dependent(fields, fields[j].name);
    if dependent.Some? then
      var field := FieldOf(fields, dependent.value);
      if !fields[j].ty.ScalarField? then None
      else if fields[dependent.value].ty.UnionField? then
        // A return parameter's union is rejected where it is planned itself.
        Some(Selector(field, fields[j].ty.scalar))
      else
        Some(Count(field, fields[j].ty.scalar))
    else
      var field := FieldOf(fields, j);
      match fields[j].ty
      case ScalarField(scalar) => Some(Fixed(field, Integer(scalar)))
      case StructField(name) =>
        var shape := ShapeOf(structs, StructElement(name));
        if shape.Some? then Some(Fixed(field, shape.value)) else None
      case ArrayField(element, len) =>
        var shape := ShapeOf(structs, element);
        // The product is computed in 16 bits and panics past them.
        if shape.Some? && shape.value.Width() * len < 0x1_0000
        then Some(FixedArray(field, shape.value, len))
        else None
      case CountedField(element, count, capacity) =>
        var shape := ShapeOf(structs, element);
        var scalar := IntegerNamed(fields, count);
        if shape.None? || scalar.None? then None
        // 1 shifted by 64 bits overflows and panics; otherwise the count cannot express it.
        else if scalar.value.Width() == 8 || Power(scalar.value.Width()) <= capacity then None
        else if side.Returns? && Position(fields, count).value > j then None
        else Some(Elements(field, shape.value, capacity))
      case UnionField(selector, variants) =>
        var scalar := IntegerNamed(fields, selector);
        if side.Returns? || scalar.None? then None
        else Some(Union(field, variants, scalar.value))
      case OptionalField(scalar) =>
        if side.Returns? then None else Some(Optional(field, scalar))
  }

  /** The slots of a layout, if every member can be planned. */
  function PlanOf(structs: Structs, fields: seq<Field>, side: Side): Option<seq<Slot>>
    requires Acyclic(structs)
  {
    if forall j | 0 <= j < |fields| :: PlanMember(structs, fields, j, side).Some?
    then Some(seq(|fields|, j requires 0 <= j < |fields| && PlanMember(structs, fields, j, side).Some? =>
                    PlanMember(structs, fields, j, side).value))
    else None
  }

  /** Every member is planned as its slot. */
  ghost predicate Plans(structs: Structs, fields: seq<Field>, side: Side, slots: seq<Slot>)
    requires Acyclic(structs)
  {
    |slots| == |fields| && forall j | 0 <= j < |fields| :: PlanMember(structs, fields, j, side) == Some(slots[j])
  }

  lemma {:induction false} PlanAt(structs: Structs, fields: seq<Field>, side: Side)
    requires Acyclic(structs)
    ensures var plan := PlanOf(structs, fields, side);
            plan.Some? ==> Plans(structs, fields, side, plan.value)
  {
  }

  /** A valid parameter layout is planned exactly if its arrays take fewer than 65536 bytes and
      every buffer's capacity can be counted by its count, in fewer than 8 bytes. */
  lemma {:induction false} ParamsPlanned(structs: Structs, fields: seq<Field>)
    requires Acyclic(structs) && ValidLayout(structs, fields)
    ensures PlanOf(structs, fields, Params).Some? <==> forall j | 0 <= j < |fields| :: Plannable(structs, fields, j)
  {
    forall j | 0 <= j < |fields|
      ensures PlanMember(structs, fields, j, Params).Some? <==> Plannable(structs, fields, j)
    {
      MemberPlanned(structs, fields, j);
    }
    hide PlanMember, ValidLayout, Plannable;
  }

  ghost predicate Plannable(structs: Structs, fields: seq<Field>, j: nat)
    requires Acyclic(structs) && j < |fields|
  {
    match fields[j].ty
    case ArrayField(element, len) =>
      ElementWidth(structs, element).Some? && ElementWidth(structs, element).value * len <= 65535
    case CountedField(_, count, capacity) =>
      exists i | 0 <= i < j ::
        fields[i].name == count && (fields[i].ty == ScalarField(U8) ==> capacity <= 255)
        && fields[i].ty in {ScalarField(U8), ScalarField(U16), ScalarField(U32)}
    case _ => true
  }

  lemma {:induction false} CountNamed(structs: Structs, fields: seq<Field>, j: nat) returns (i: nat)
    requires Acyclic(structs) && ValidLayout(structs, fields) && j < |fields| && fields[j].ty.Reference().Some?
    ensures i < j && fields[i].name == fields[j].ty.Reference().value
    ensures fields[i].ty.ScalarField? && !fields[i].ty.scalar.IsSigned()
    ensures Position(fields, fields[j].ty.Reference().value) == Some(i)
    ensures forall k | 0 <= k < |fields| && k != i :: fields[k].name != fields[i].name
  {
    assert ValidMember(structs, fields, j);
    i :| 0 <= i < j && fields[i].name == fields[j].ty.Reference().value
         && fields[i].ty.ScalarField? && !fields[i].ty.scalar.IsSigned();
    forall k | 0 <= k < |fields| && k != i ensures fields[k].name != fields[i].name {
      assert ValidMember(structs, fields, k) && ValidMember(structs, fields, i);
    }
  }

  lemma {:induction false} MemberPlanned(structs: Structs, fields: seq<Field>, j: nat)
    requires Acyclic(structs) && ValidLayout(structs, fields) && j < |fields|
    ensures PlanMember(structs, fields, j, Params).Some? <==> Plannable(structs, fields, j)
  {
    PowersOfTheScalars();
    assert ValidMember(structs, fields, j);
    var dependent := Dependent(fields, fields[j].name);
    if dependent.Some? {
      var i := CountNamed(structs, fields, dependent.value);
    }
    if fields[j].ty.Reference().Some? {
      var i := CountNamed(structs, fields, j);
    }
    hide ValidLayout, ValidMember, StructWidth, Position, Dependent, FieldOf;
  }

  /** A return layout is planned exactly if it has no union and no optional member either. */
  lemma {:induction false} ReturnsPlanned(structs: Structs, fields: seq<Field>)
    requires Acyclic(structs) && ValidLayout(structs, fields)
    ensures PlanOf(structs, fields, Returns).Some? <==>
            forall j | 0 <= j < |fields| ::
              Plannable(structs, fields, j) && !fields[j].ty.UnionField? && !fields[j].ty.OptionalField?
  {
    forall j | 0 <= j < |fields|
      ensures PlanMember(structs, fields, j, Returns).Some? <==>
              Plannable(structs, fields, j) && !fields[j].ty.UnionField? && !fields[j].ty.OptionalField?
    {
      SidesPlanned(structs, fields, j);
      MemberPlanned(structs, fields, j);
    }
    hide PlanMember, ValidLayout, Plannable;
  }

  lemma {:induction false} SidesPlanned(structs: Structs, fields: seq<Field>, j: nat)
    requires Acyclic(structs) && ValidLayout(structs, fields) && j < |fields|
    ensures PlanMember(structs, fields, j, Returns).Some? <==>
            PlanMember(structs, fields, j, Params).Some? && !fields[j].ty.UnionField? && !fields[j].ty.OptionalField?
  {
    var dependent := Dependent(fields, fields[j].name);
    if dependent.Some? {
      var i := CountNamed(structs, fields, dependent.value);
    }
    if fields[j].ty.Reference().Some? {
      var i := CountNamed(structs, fields, j);
    }
    hide ValidLayout, ValidMember, StructWidth, Position, Dependent, FieldOf;
  }

  // ----- values

  /** The width the alternative a selector value chooses has. */
  function WidthFor(variants: seq<Variant>, tag: u64): Option<u16> {
    var explicit := WidthListed(variants, Some(tag));
    if explicit.Some? then explicit else WidthListed(variants, None)
  }

  function WidthListed(variants: seq<Variant>, tag: Option<u64>): (width: Option<u16>)
    ensures width.Some? ==> exists i | 0 <= i < |variants| :: variants[i] == Variant(tag, width.value)
    ensures width.None? ==> forall i | 0 <= i < |variants| :: variants[i].tag != tag
  {
    if variants == [] then None
    else if variants[0].tag == tag then Some(variants[0].width)
    else WidthListed(variants[1..], tag)
  }

  predicate AllFit(shape: Shape, items: seq<Item>) {
    forall i | 0 <= i < |items| :: shape.Fits(items[i])
  }

  /** Whether the declared type of a slot's field holds its value: an alternative's
      selector value fits the selector and its width is the one it selects. A count's
      or selector's field is checked where it is declared. */
  predicate Holds(slot: Slot, values: seq<Value>) {
    match slot
    case Fixed(f, shape) => f < |values| && values[f].One? && shape.Fits(values[f].item)
    case FixedArray(f, shape, len) =>
      f < |values| && values[f].Many? && |values[f].items| == len && AllFit(shape, values[f].items)
    case Elements(f, shape, _) => f < |values| && values[f].Many? && AllFit(shape, values[f].items)
    case Union(f, variants, selector) =>
      && f < |values| && values[f].Alternative?
      && selector.Holds(values[f].tag)
      && WidthFor(variants, values[f].tag) == Some(|values[f].bytes|)
    case Optional(f, scalar) =>
      f < |values| && values[f].Maybe? && (values[f].supplied.Some? ==> scalar.Holds(values[f].supplied.value))
    case Count(f, _) => f < |values| && values[f].Many?
    case Selector(f, _) => f < |values| && values[f].Alternative?
  }

  predicate Conforms(slots: seq<Slot>, values: seq<Value>) {
    forall k | 0 <= k < |slots| :: Holds(slots[k], values)
  }
}

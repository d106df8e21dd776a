/** The parameters the generated constructor accepts, and what their encodings satisfy:
    the envelope, the 255-byte parameter limit (Bluetooth Core, Vol 4, Part E, section
    5.4.1), and unambiguous optional tails (crates/stm32wb-hci-macros/src/command.rs). */
module Constructor {
  import opened Options
  import opened Bytes
  import opened Layout
  import opened Plan
  import opened Encoder

  predicate WithinCapacity(slots: seq<Slot>, values: seq<Value>)
    requires Conforms(slots, values)
  {
    forall k | 0 <= k < |slots| && slots[k].Elements? ::
      Holds(slots[k], values) && |values[slots[k].field].items| <= slots[k].capacity
  }

  function CountedMembers(slots: seq<Slot>): nat {
    if slots == [] then 0 else (if slots[0].Elements? then 1 else 0) + CountedMembers(slots[1..])
  }

  /** The fields of the optional members, in order. */
  function OptionalFields(slots: seq<Slot>): seq<nat> {
    if slots == [] then [] else
    var last := |slots| - 1;
    OptionalFields(slots[..last]) + if slots[last].Optional? then [slots[last].field] else []
  }

  predicate Supplied(values: seq<Value>, field: nat) {
    field < |values| && values[field].Maybe? && values[field].supplied.Some?
  }

  /** No optional field is supplied right after an omitted one. */
  predicate NoGaps(slots: seq<Slot>, values: seq<Value>) {
    var optional := OptionalFields(slots);
    forall i | 0 < i < |optional| :: Supplied(values, optional[i]) ==> Supplied(values, optional[i - 1])
  }

  /** Every counted field within its capacity; several of them within 255 bytes in all;
      and no optional field supplied right after an omitted one. */
  predicate Accepts(slots: seq<Slot>, values: seq<Value>) {
    && Conforms(slots, values)
    && WithinCapacity(slots, values)
    && (CountedMembers(slots) > 1 ==> Size(slots, values) <= 255)
    && NoGaps(slots, values)
  }

  // ----- the envelope

  lemma {:induction false} ProductGrows(n: nat, m: nat, width: nat)
    requires n <= m
    ensures n * width <= m * width
  {
  }

  lemma {:induction false} SlotInBounds(structs: Structs, fields: seq<Field>, j: nat, slot: Slot, values: seq<Value>)
    requires Acyclic(structs) && j < |fields| && ValidMember(structs, fields, j)
    requires PlanMember(structs, fields, j, Params) == Some(slot)
    requires Holds(slot, values) && (slot.Elements? ==> |values[slot.field].items| <= slot.capacity)
    ensures MinWidth(structs, fields[j].ty) <= SlotSize(slot, values) <= MaxWidth(structs, fields[j].ty)
  {
    var ty := fields[j].ty;
    if slot.Count? || slot.Selector? {
      assert ty.ScalarField?;
    } else {
      match ty {
        case CountedField(element, _, capacity) =>
          ProductGrows(|values[slot.field].items|, capacity, slot.shape.Width());
        case ArrayField(element, len) =>
          assert slot.shape.Width() == ElementWidth(structs, element).value;
        case UnionField(_, variants) =>
          assert exists i | 0 <= i < |variants| :: variants[i].width == |values[slot.field].bytes|;
        case _ =>
      }
    }
  }

  lemma {:induction false} SizeInBounds(structs: Structs, fields: seq<Field>, slots: seq<Slot>, values: seq<Value>,
                                        k: nat)
    requires Acyclic(structs) && |slots| == |fields| && Conforms(slots, values) && k <= |fields|
    requires forall j | 0 <= j < |fields| ::
               Holds(slots[j], values) &&
               MinWidth(structs, fields[j].ty) <= SlotSize(slots[j], values) <= MaxWidth(structs, fields[j].ty)
    ensures BoundsFrom(structs, fields, k).min <= SizeFrom(slots, values, k) <= BoundsFrom(structs, fields, k).max
    decreases |fields| - k
  {
    hide Conforms, Holds, SlotSize, MinWidth, MaxWidth;
    if k < |fields| {
      SizeInBounds(structs, fields, slots, values, k + 1);
    }
  }

  /** Every value within the capacities encodes to `size()` bytes, between the bounds
      the catalog computes for the layout. */
  lemma {:induction false} EnvelopeSound(structs: Structs, fields: seq<Field>, slots: seq<Slot>, values: seq<Value>)
    requires Acyclic(structs) && ValidLayout(structs, fields)
    requires PlanOf(structs, fields, Params) == Some(slots)
    requires Conforms(slots, values) && WithinCapacity(slots, values)
    ensures |Encode(slots, values)| == Size(slots, values)
    ensures Bounds(structs, fields).min <= Size(slots, values) <= Bounds(structs, fields).max
  {
    PlanAt(structs, fields, Params);
    forall j | 0 <= j < |fields|
      ensures Holds(slots[j], values)
      ensures MinWidth(structs, fields[j].ty) <= SlotSize(slots[j], values) <= MaxWidth(structs, fields[j].ty)
    {
      assert Holds(slots[j], values) && ValidMember(structs, fields, j);
      SlotInBounds(structs, fields, j, slots[j], values);
    }
    hide PlanOf, Plans, ValidLayout;
    SizeIsLength(slots, values, 0);
    SizeInBounds(structs, fields, slots, values, 0);
  }

  // ----- the parameter limit

  function Zeros(n: nat): seq<byte> {
    seq(n, _ => 0)
  }

  function Blank(shape: Shape): (item: Item)
    ensures shape.Fits(item)
  {
    match shape
    case Integer(scalar) => Number(0)
    case Struct(width) => Packed(Zeros(width))
  }

  /** Some value of the selector chooses an alternative of this width. */
  ghost predicate Selectable(variants: seq<Variant>, selector: Scalar, width: nat) {
    exists tag: u64 :: selector.Holds(tag) && WidthFor(variants, tag) == Some(width)
  }

  /** The widest alternative up to `limit` that a selector value chooses. */
  ghost function WidestSelectable(variants: seq<Variant>, selector: Scalar, limit: nat): (widest: Option<nat>)
    ensures widest.Some? ==> Selectable(variants, selector, widest.value)
    ensures forall width: nat | width <= limit && Selectable(variants, selector, width) ::
              widest.Some? && width <= widest.value
  {
    if Selectable(variants, selector, limit) then Some(limit)
    else if limit == 0 then None
    else WidestSelectable(variants, selector, limit - 1)
  }

  /** The narrowest alternative from `limit` that a selector value chooses. */
  ghost function NarrowestSelectable(variants: seq<Variant>, selector: Scalar, limit: nat): (narrowest: Option<nat>)
    ensures narrowest.Some? ==> Selectable(variants, selector, narrowest.value)
    ensures forall width: nat | limit <= width <= 0xFFFF && Selectable(variants, selector, width) ::
              narrowest.Some? && narrowest.value <= width
    decreases 0x1_0000 - limit
  {
    if Selectable(variants, selector, limit) then Some(limit)
    else if limit >= 0xFFFF then None
    else NarrowestSelectable(variants, selector, limit + 1)
  }

  datatype End = Least | Most

  /** The size of the smallest or largest value a slot's field can have; none if it can have
      no value: no alternative of its union is chosen by a value its selector holds. */
  ghost function ExtremeSize(end: End, slot: Slot): Option<nat> {
    match slot
    case Fixed(_, shape) => Some(shape.Width())
    case FixedArray(_, shape, len) => Some(len * shape.Width())
    case Count(_, scalar) => Some(scalar.Width())
    case Elements(_, shape, capacity) => Some(if end.Least? then 0 else capacity * shape.Width())
    case Selector(_, scalar) => Some(scalar.Width())
    case Union(_, variants, selector) =>
      if end.Least? then NarrowestSelectable(variants, selector, 0) else WidestSelectable(variants, selector, 0xFFFF)
    case Optional(_, scalar) => Some(if end.Least? then 0 else scalar.Width())
  }

  /** The size of the smallest or largest values the members from the `k`th can have together. */
  ghost function ExtremeFrom(end: End, slots: seq<Slot>, k: nat): Option<nat>
    requires k <= |slots|
    decreases |slots| - k
  {
    if k == |slots| then Some(0) else
    var first, rest := ExtremeSize(end, slots[k]), ExtremeFrom(end, slots, k + 1);
    if first.Some? && rest.Some? then Some(first.value + rest.value) else None
  }

  lemma {:induction false} ExtremeOfEach(end: End, slots: seq<Slot>, k: nat, j: nat)
    requires k <= j < |slots| && ExtremeFrom(end, slots, k).Some?
    ensures ExtremeSize(end, slots[j]).Some?
    decreases |slots| - k
  {
    if k < j {
      ExtremeOfEach(end, slots, k + 1, j);
    }
  }

  lemma {:induction false} SlotAtMost(slot: Slot, values: seq<Value>)
    requires Holds(slot, values) && (slot.Elements? ==> |values[slot.field].items| <= slot.capacity)
    ensures ExtremeSize(Most, slot).Some? && SlotSize(slot, values) <= ExtremeSize(Most, slot).value
  {
    match slot {
      case Elements(f, shape, capacity) =>
        ProductGrows(|values[f].items|, capacity, shape.Width());
      case Union(f, variants, selector) =>
        assert Selectable(variants, selector, |values[f].bytes|);
      case _ =>
    }
  }

  lemma {:induction false} SizeAtMost(slots: seq<Slot>, values: seq<Value>, k: nat)
    requires Conforms(slots, values) && WithinCapacity(slots, values) && k <= |slots|
    ensures ExtremeFrom(Most, slots, k).Some? && SizeFrom(slots, values, k) <= ExtremeFrom(Most, slots, k).value
    decreases |slots| - k
  {
    if k < |slots| {
      assert Holds(slots[k], values);
      SlotAtMost(slots[k], values);
      SizeAtMost(slots, values, k + 1);
    }
  }

  ghost function ExtremeFor(end: End, slot: Slot): Value
    requires ExtremeSize(end, slot).Some?
  {
    match slot
    case FixedArray(_, shape, len) => Many(seq(len, _ => Blank(shape)))
    case Elements(_, shape, capacity) => Many(seq(if end.Least? then 0 else capacity, _ => Blank(shape)))
    case Union(_, variants, selector) =>
      var width := ExtremeSize(end, slot).value;
      var tag: u64 :| selector.Holds(tag) && WidthFor(variants, tag) == Some(width);
      Alternative(tag, Zeros(width))
    case Optional(_, _) => Maybe(if end.Least? then None else Some(0))
    case Fixed(_, shape) => One(Blank(shape))
    case _ => One(Number(0))
  }

  /** The smallest or largest value of every field declared for the first `k` members. */
  ghost function Extreme(end: End, fields: seq<Field>, slots: seq<Slot>, k: nat): (values: seq<Value>)
    requires |slots| == |fields| && k <= |fields|
    requires ExtremeFrom(end, slots, 0).Some?
    ensures |values| == FieldOf(fields, k)
  {
    if k == 0 then [] else
    ExtremeOfEach(end, slots, 0, k - 1);
    Extreme(end, fields, slots, k - 1) + if Derived(fields, k - 1) then [] else [ExtremeFor(end, slots[k - 1])]
  }

  lemma {:induction false} ExtremeAt(end: End, fields: seq<Field>, slots: seq<Slot>, k: nat, j: nat)
    requires |slots| == |fields| && j < k <= |fields| && !Derived(fields, j)
    requires ExtremeFrom(end, slots, 0).Some?
    ensures ExtremeSize(end, slots[j]).Some? && FieldOf(fields, j) < |Extreme(end, fields, slots, k)|
    ensures Extreme(end, fields, slots, k)[FieldOf(fields, j)] == ExtremeFor(end, slots[j])
  {
    ExtremeOfEach(end, slots, 0, j);
    if j < k - 1 {
      ExtremeAt(end, fields, slots, k - 1, j);
    }
  }

  /** The declared field a slot takes its value from. */
  function FieldIn(slot: Slot): nat {
    match slot
    case Count(f, _) => f
    case Selector(f, _) => f
    case _ => slot.field
  }

  /** The declared member whose field the `j`th slot takes its value from. */
  lemma {:induction false} PlannedField(structs: Structs, fields: seq<Field>, slots: seq<Slot>, j: nat) returns (d: nat)
    requires Acyclic(structs) && Plans(structs, fields, Params, slots) && j < |fields|
    ensures d < |fields| && !Derived(fields, d) && FieldIn(slots[j]) == FieldOf(fields, d)
    ensures slots[j].Count? ==> slots[d].Elements?
    ensures slots[j].Selector? ==> slots[d].Union?
    ensures !slots[j].Count? && !slots[j].Selector? ==> d == j
  {
    assert PlanMember(structs, fields, j, Params) == Some(slots[j]);
    d := if Derived(fields, j) then Dependent(fields, fields[j].name).value else j;
    assert PlanMember(structs, fields, d, Params) == Some(slots[d]);
  }

  lemma {:induction false} ExtremeHeld(end: End, slot: Slot, declared: Slot, values: seq<Value>)
    requires ExtremeSize(end, declared).Some? && FieldIn(slot) < |values| && values[FieldIn(slot)] == ExtremeFor(end, declared)
    requires slot.Count? ==> declared.Elements?
    requires slot.Selector? ==> declared.Union?
    requires !slot.Count? && !slot.Selector? ==> declared == slot
    ensures Holds(slot, values)
  {
    hide WidestSelectable, NarrowestSelectable, WidthFor, Widest;
    PowersOfTheScalars();
  }

  lemma {:induction false} ExtremeHolds(end: End, structs: Structs, fields: seq<Field>, slots: seq<Slot>, j: nat)
    requires Acyclic(structs) && Plans(structs, fields, Params, slots) && j < |fields|
    requires ExtremeFrom(end, slots, 0).Some?
    ensures Holds(slots[j], Extreme(end, fields, slots, |fields|))
    ensures !slots[j].Count? && !slots[j].Selector? ==>
              && ExtremeSize(end, slots[j]).Some?
              && Extreme(end, fields, slots, |fields|)[FieldIn(slots[j])] == ExtremeFor(end, slots[j])
  {
    var d := PlannedField(structs, fields, slots, j);
    hide *;
    ExtremeAt(end, fields, slots, |fields|, d);
    ExtremeOfEach(end, slots, 0, j);
    ExtremeHeld(end, slots[j], slots[d], Extreme(end, fields, slots, |fields|));
  }

  lemma {:induction false} ExtremeSlotSize(end: End, structs: Structs, fields: seq<Field>, slots: seq<Slot>, j: nat)
    requires Acyclic(structs) && Plans(structs, fields, Params, slots) && j < |fields|
    requires ExtremeFrom(end, slots, 0).Some?
    ensures Holds(slots[j], Extreme(end, fields, slots, |fields|))
    ensures Some(SlotSize(slots[j], Extreme(end, fields, slots, |fields|))) == ExtremeSize(end, slots[j])
  {
    ExtremeHolds(end, structs, fields, slots, j);
    ExtremeOfEach(end, slots, 0, j);
    hide Plans, Extreme, ExtremeFrom;
  }

  lemma {:induction false} ExtremeSum(end: End, slots: seq<Slot>, values: seq<Value>, k: nat)
    requires Conforms(slots, values) && k <= |slots| && ExtremeFrom(end, slots, k).Some?
    requires forall j | 0 <= j < |slots| ::
               Holds(slots[j], values) && Some(SlotSize(slots[j], values)) == ExtremeSize(end, slots[j])
    ensures Some(SizeFrom(slots, values, k)) == ExtremeFrom(end, slots, k)
    decreases |slots| - k
  {
    hide Holds, SlotSize, ExtremeSize, Conforms;
    if k < |slots| {
      ExtremeSum(end, slots, values, k + 1);
    }
  }

  lemma {:induction false} LargestAccepted(structs: Structs, fields: seq<Field>,
                                           slots: seq<Slot>) returns (values: seq<Value>)
    requires Acyclic(structs) && Plans(structs, fields, Params, slots) && ExtremeFrom(Most, slots, 0).Some?
    requires CountedMembers(slots) <= 1
    ensures Accepts(slots, values) && Some(|Encode(slots, values)|) == ExtremeFrom(Most, slots, 0)
  {
    values := Extreme(Most, fields, slots, |fields|);
    forall j | 0 <= j < |fields|
      ensures Holds(slots[j], values) && Some(SlotSize(slots[j], values)) == ExtremeSize(Most, slots[j])
      ensures slots[j].Elements? ==> |values[slots[j].field].items| <= slots[j].capacity
      ensures slots[j].Optional? ==> Supplied(values, slots[j].field)
    {
      ExtremeHolds(Most, structs, fields, slots, j);
      ExtremeSlotSize(Most, structs, fields, slots, j);
    }
    hide Plans, Extreme, SlotSize, ExtremeSize, ExtremeFrom;
    ExtremeSum(Most, slots, values, 0);
    SizeIsLength(slots, values, 0);
    OptionalsSupplied(slots, values);
  }

  /** Every accepted value fits a command exactly if there are several counted members,
      the largest value each field can have takes at most 255 bytes together, or some
      union can have no value at all. Otherwise some accepted value does not: the
      capacities alone do not leave room for the fixed members. */
  lemma {:induction false} PacketLimit(structs: Structs, fields: seq<Field>, slots: seq<Slot>)
    requires Acyclic(structs) && PlanOf(structs, fields, Params) == Some(slots)
    ensures (forall values | Accepts(slots, values) :: |Encode(slots, values)| <= 255)
            <==> CountedMembers(slots) > 1 || ExtremeFrom(Most, slots, 0).None? || ExtremeFrom(Most, slots, 0).value <= 255
  {
    PlanAt(structs, fields, Params);
    forall values | Accepts(slots, values)
      ensures ExtremeFrom(Most, slots, 0).Some? && |Encode(slots, values)| <= ExtremeFrom(Most, slots, 0).value
      ensures CountedMembers(slots) > 1 ==> |Encode(slots, values)| <= 255
    {
      SizeIsLength(slots, values, 0);
      SizeAtMost(slots, values, 0);
    }
    if CountedMembers(slots) <= 1 && ExtremeFrom(Most, slots, 0).Some? {
      var values := LargestAccepted(structs, fields, slots);
    }
    hide *;
  }

  lemma {:induction false} PlannedWidth(structs: Structs, fields: seq<Field>, j: nat, slot: Slot)
    requires Acyclic(structs) && j < |fields| && ValidType(structs, fields[j].ty) && !slot.Union?
    requires PlanMember(structs, fields, j, Params) == Some(slot)
    ensures ExtremeSize(Most, slot) == Some(MaxWidth(structs, fields[j].ty))
  {
    hide StructWidth, WidestSelectable, NarrowestSelectable, Dependent, FieldOf, Position;
  }

  lemma {:induction false} WidestAlternative(variants: seq<Variant>, selector: Scalar)
    requires variants != []
    ensures var widest := WidestSelectable(variants, selector, 0xFFFF);
            && (widest.Some? ==> widest.value <= Widest(variants))
            && (Selectable(variants, selector, Widest(variants)) ==> widest == Some(Widest(variants)))
  {
    hide WidestSelectable;
    var widest := WidestSelectable(variants, selector, 0xFFFF);
    if widest.Some? {
      var tag: u64 :| selector.Holds(tag) && WidthFor(variants, tag) == Some(widest.value);
    }
  }

  lemma {:induction false} LargestInEnvelope(structs: Structs, fields: seq<Field>, slots: seq<Slot>, j: nat)
    requires Acyclic(structs) && ValidLayout(structs, fields) && Plans(structs, fields, Params, slots) && j < |slots|
    ensures ExtremeSize(Most, slots[j]).Some? ==> ExtremeSize(Most, slots[j]).value <= MaxWidth(structs, fields[j].ty)
    ensures slots[j].Union? ==> slots[j].variants != []
    ensures (slots[j].Union? ==> Selectable(slots[j].variants, slots[j].selector, Widest(slots[j].variants))) ==>
              ExtremeSize(Most, slots[j]) == Some(MaxWidth(structs, fields[j].ty))
  {
    assert PlanMember(structs, fields, j, Params) == Some(slots[j]);
    assert ValidMember(structs, fields, j);
    hide Plans, ValidLayout, ValidMember, WidestSelectable, Widest, Selectable, StructWidth;
    if slots[j].Union? {
      WidestAlternative(slots[j].variants, slots[j].selector);
    } else {
      PlannedWidth(structs, fields, j, slots[j]);
    }
  }

  lemma {:induction false} LargestWithin(structs: Structs, fields: seq<Field>, slots: seq<Slot>, k: nat)
    requires Acyclic(structs) && |fields| == |slots| && k <= |slots|
    requires forall j | 0 <= j < |slots| ::
               ExtremeSize(Most, slots[j]).Some? ==> ExtremeSize(Most, slots[j]).value <= MaxWidth(structs, fields[j].ty)
    ensures ExtremeFrom(Most, slots, k).Some? ==> ExtremeFrom(Most, slots, k).value <= BoundsFrom(structs, fields, k).max
    ensures (forall j | 0 <= j < |slots| :: ExtremeSize(Most, slots[j]) == Some(MaxWidth(structs, fields[j].ty))) ==>
              ExtremeFrom(Most, slots, k) == Some(BoundsFrom(structs, fields, k).max)
    decreases |slots| - k
  {
    hide ExtremeSize, MaxWidth, MinWidth;
    if k < |slots| {
      LargestWithin(structs, fields, slots, k + 1);
    }
  }

  /** The envelope's maximum is enough, and it is exact where some selector value chooses
      each union's widest alternative. */
  lemma {:induction false} EnvelopeLimit(structs: Structs, fields: seq<Field>, slots: seq<Slot>)
    requires Acyclic(structs) && ValidLayout(structs, fields)
    requires PlanOf(structs, fields, Params) == Some(slots)
    ensures CountedMembers(slots) > 1 || Bounds(structs, fields).max <= 255 ==>
              forall values | Accepts(slots, values) :: |Encode(slots, values)| <= 255
    ensures forall k | 0 <= k < |slots| && slots[k].Union? :: slots[k].variants != []
    ensures (forall k | 0 <= k < |slots| && slots[k].Union? ::
               Selectable(slots[k].variants, slots[k].selector, Widest(slots[k].variants))) ==>
              ((forall values | Accepts(slots, values) :: |Encode(slots, values)| <= 255)
               <==> CountedMembers(slots) > 1 || Bounds(structs, fields).max <= 255)
  {
    PlanAt(structs, fields, Params);
    PacketLimit(structs, fields, slots);
    forall j | 0 <= j < |slots|
      ensures ExtremeSize(Most, slots[j]).Some? ==> ExtremeSize(Most, slots[j]).value <= MaxWidth(structs, fields[j].ty)
      ensures slots[j].Union? ==> slots[j].variants != []
      ensures (slots[j].Union? ==> Selectable(slots[j].variants, slots[j].selector, Widest(slots[j].variants))) ==>
                ExtremeSize(Most, slots[j]) == Some(MaxWidth(structs, fields[j].ty))
    {
      LargestInEnvelope(structs, fields, slots, j);
    }
    hide Accepts, Encode, Bounds, ExtremeFrom, ExtremeSize, MaxWidth, Selectable, PlanOf, ValidLayout, CountedMembers;
    LargestWithin(structs, fields, slots, 0);
    assert Bounds(structs, fields) == BoundsFrom(structs, fields, 0) by {
      BoundsWhole(structs, fields);
    }
  }

  lemma {:induction false} BoundsWhole(structs: Structs, fields: seq<Field>)
    requires Acyclic(structs)
    ensures Bounds(structs, fields) == BoundsFrom(structs, fields, 0)
  {
  }

  // ----- both ends of the envelope are attained

  /** Some value conforms, is within the capacities, and encodes to `size` bytes. */
  ghost predicate Attained(slots: seq<Slot>, size: nat) {
    exists values :: Conforms(slots, values) && WithinCapacity(slots, values) && |Encode(slots, values)| == size
  }

  lemma {:induction false} ExtremeAttained(structs: Structs, fields: seq<Field>, slots: seq<Slot>, end: End)
    requires Acyclic(structs) && Plans(structs, fields, Params, slots) && ExtremeFrom(end, slots, 0).Some?
    ensures Attained(slots, ExtremeFrom(end, slots, 0).value)
  {
    var values := Extreme(end, fields, slots, |fields|);
    forall j | 0 <= j < |fields|
      ensures Holds(slots[j], values) && Some(SlotSize(slots[j], values)) == ExtremeSize(end, slots[j])
      ensures slots[j].Elements? ==> |values[slots[j].field].items| <= slots[j].capacity
    {
      ExtremeHolds(end, structs, fields, slots, j);
      ExtremeSlotSize(end, structs, fields, slots, j);
    }
    hide Plans, Extreme, SlotSize, ExtremeSize, ExtremeFrom;
    ExtremeSum(end, slots, values, 0);
    SizeIsLength(slots, values, 0);
  }

  lemma {:induction false} NarrowestAlternative(variants: seq<Variant>, selector: Scalar)
    requires variants != [] && Selectable(variants, selector, Narrowest(variants))
    ensures NarrowestSelectable(variants, selector, 0) == Some(Narrowest(variants))
  {
    hide NarrowestSelectable;
    var narrowest := NarrowestSelectable(variants, selector, 0);
    var tag: u64 :| selector.Holds(tag) && WidthFor(variants, tag) == Some(narrowest.value);
  }

  lemma {:induction false} PlannedNarrowest(structs: Structs, fields: seq<Field>, j: nat, slot: Slot)
    requires Acyclic(structs) && j < |fields| && ValidType(structs, fields[j].ty) && !slot.Union?
    requires PlanMember(structs, fields, j, Params) == Some(slot)
    ensures ExtremeSize(Least, slot) == Some(MinWidth(structs, fields[j].ty))
  {
    hide StructWidth, WidestSelectable, NarrowestSelectable, Dependent, FieldOf, Position;
  }

  lemma {:induction false} SmallestIsMinimum(structs: Structs, fields: seq<Field>, slots: seq<Slot>, j: nat)
    requires Acyclic(structs) && ValidLayout(structs, fields) && Plans(structs, fields, Params, slots) && j < |slots|
    requires slots[j].Union? ==>
               slots[j].variants != [] && Selectable(slots[j].variants, slots[j].selector, Narrowest(slots[j].variants))
    ensures ExtremeSize(Least, slots[j]) == Some(MinWidth(structs, fields[j].ty))
  {
    assert PlanMember(structs, fields, j, Params) == Some(slots[j]);
    assert ValidMember(structs, fields, j);
    hide Plans, ValidLayout, ValidMember, NarrowestSelectable, Narrowest, Selectable, StructWidth;
    if slots[j].Union? {
      NarrowestAlternative(slots[j].variants, slots[j].selector);
    } else {
      PlannedNarrowest(structs, fields, j, slots[j]);
    }
  }

  lemma {:induction false} SmallestSum(structs: Structs, fields: seq<Field>, slots: seq<Slot>, k: nat)
    requires Acyclic(structs) && |fields| == |slots| && k <= |slots|
    requires forall j | 0 <= j < |slots| :: ExtremeSize(Least, slots[j]) == Some(MinWidth(structs, fields[j].ty))
    ensures ExtremeFrom(Least, slots, k) == Some(BoundsFrom(structs, fields, k).min)
    decreases |slots| - k
  {
    hide ExtremeSize, MaxWidth, MinWidth;
    if k < |slots| {
      SmallestSum(structs, fields, slots, k + 1);
    }
  }

  /** Where the narrowest and the widest alternative of every union can be chosen, some values
      take exactly the envelope's minimum and maximum. */
  lemma {:induction false} EnvelopeAttained(structs: Structs, fields: seq<Field>, slots: seq<Slot>)
    requires Acyclic(structs) && ValidLayout(structs, fields) && PlanOf(structs, fields, Params) == Some(slots)
    requires forall k | 0 <= k < |slots| && slots[k].Union? ::
               && slots[k].variants != []
               && Selectable(slots[k].variants, slots[k].selector, Narrowest(slots[k].variants))
               && Selectable(slots[k].variants, slots[k].selector, Widest(slots[k].variants))
    ensures Attained(slots, Bounds(structs, fields).min) && Attained(slots, Bounds(structs, fields).max)
  {
    PlanAt(structs, fields, Params);
    forall j | 0 <= j < |slots|
      ensures ExtremeSize(Least, slots[j]) == Some(MinWidth(structs, fields[j].ty))
      ensures ExtremeSize(Most, slots[j]) == Some(MaxWidth(structs, fields[j].ty))
    {
      SmallestIsMinimum(structs, fields, slots, j);
      LargestInEnvelope(structs, fields, slots, j);
    }
    hide Attained, Bounds, ExtremeFrom, ExtremeSize, MaxWidth, MinWidth, Selectable, PlanOf, Plans, ValidLayout;
    SmallestSum(structs, fields, slots, 0);
    LargestWithin(structs, fields, slots, 0);
    BoundsWhole(structs, fields);
    ExtremeAttained(structs, fields, slots, Least);
    ExtremeAttained(structs, fields, slots, Most);
  }

  lemma {:induction false} OptionalsSupplied(slots: seq<Slot>, values: seq<Value>)
    requires forall k | 0 <= k < |slots| && slots[k].Optional? :: Supplied(values, slots[k].field)
    ensures forall i | 0 <= i < |OptionalFields(slots)| :: Supplied(values, OptionalFields(slots)[i])
  {
    if slots != [] {
      OptionalsSupplied(slots[..|slots| - 1], values);
    }
  }

  /** A one-byte count and a buffer of 255 bytes, which the catalog accepts. */
  function WholeCapacity(): seq<Field> {
    [Field("Length", ScalarField(U8)), Field("Data", CountedField(IntegerElement(U8), "Length", 255))]
  }

  lemma {:induction false} WholeCapacityPlanned()
    ensures Acyclic(map[]) && ValidLayout(map[], WholeCapacity())
    ensures PlanOf(map[], WholeCapacity(), Params) == Some([Count(0, U8), Elements(0, Integer(U8), 255)])
  {
    var fields, slots := WholeCapacity(), [Count(0, U8), Elements(0, Integer(U8), 255)];
    PowersOfTheScalars();
    assert Ranks(map[], map[]);
    assert fields[0].name == "Length";
    assert EarlierUnsigned(fields, 1, "Length");
    assert Dependent(fields, "Length") == Some(1) && Dependent(fields, "Data") == None;
    assert Position(fields, "Length") == Some(0);
    assert forall j | 0 <= j < 2 :: PlanMember(map[], fields, j, Params) == Some(slots[j]);
    assert PlanOf(map[], fields, Params).value == slots;
  }

  /** Its constructor accepts 255 bytes of data, which with the count do not fit. */
  lemma {:induction false} WholeCapacityTooLong()
    ensures Acyclic(map[]) && ValidLayout(map[], WholeCapacity())
    ensures var slots := [Count(0, U8), Elements(0, Integer(U8), 255)];
            && PlanOf(map[], WholeCapacity(), Params) == Some(slots)
            && exists values :: Accepts(slots, values) && |Encode(slots, values)| > 255
  {
    WholeCapacityPlanned();
    var slots := [Count(0, U8), Elements(0, Integer(U8), 255)];
    assert ExtremeFrom(Most, slots, 2) == Some(0);
    assert ExtremeFrom(Most, slots, 1) == Some(255);
    assert ExtremeFrom(Most, slots, 0) == Some(256);
    assert CountedMembers(slots[1..]) == 1;
    PacketLimit(map[], WholeCapacity(), slots);
  }
}

/** Which byte of an encoded value is which: the wire format, byte by byte
    (Bluetooth Core, Vol 4, Part E, section 5.2;
    crates/stm32wb-hci-macros/src/command.rs). */
module WireBytes {
  import opened Options
  import opened Arithmetic
  import opened Bytes
  import opened Layout
  import opened Plan
  import opened Encoder

  /** The bytes of the members before the `k`th. */
  function Offset(slots: seq<Slot>, values: seq<Value>, k: nat): nat
    requires Conforms(slots, values) && k <= |slots|
  {
    if k == 0 then 0 else
    assert Holds(slots[k - 1], values);
    Offset(slots, values, k - 1) + SlotSize(slots[k - 1], values)
  }

  /** Byte `i` of an integer is its `i`th digit to base 256; a structure is its bytes. */
  function ItemByte(shape: Shape, item: Item, i: nat): int
    requires shape.Fits(item) && i < shape.Width()
  {
    match item
    case Number(n) => n / Power(i) % 256
    case Packed(bytes) => bytes[i]
  }

  /** The element byte `i` of an array belongs to, and the byte's place in it. */
  function ElementAt(i: nat, width: nat): nat
    requires width > 0
  {
    i / width
  }

  function PlaceIn(i: nat, width: nat): (place: nat)
    requires width > 0
    ensures place < width
  {
    i % width
  }

  lemma {:induction false} ElementOf(i: nat, n: nat, width: nat)
    requires i < n * width
    ensures width > 0 && ElementAt(i, width) < n && i == ElementAt(i, width) * width + PlaceIn(i, width)
  {
    if width > 0 && i / width >= n {
      Within(n, i / width, width);
    }
  }

  /** Byte `i` of an array belongs to the element as many widths in. */
  function ArrayByte(shape: Shape, items: seq<Item>, i: nat): int
    requires AllFit(shape, items) && i < |items| * shape.Width()
  {
    ElementOf(i, |items|, shape.Width());
    ItemByte(shape, items[ElementAt(i, shape.Width())], PlaceIn(i, shape.Width()))
  }

  /** Byte `i` of a member: counts are lengths, selectors the alternative's tag. */
  function MemberByte(slot: Slot, values: seq<Value>, i: nat): int
    requires Holds(slot, values) && i < SlotSize(slot, values)
  {
    match slot
    case Fixed(f, shape) => ItemByte(shape, values[f].item, i)
    case FixedArray(f, shape, _) => ArrayByte(shape, values[f].items, i)
    case Elements(f, shape, _) => ArrayByte(shape, values[f].items, i)
    case Count(f, _) => |values[f].items| / Power(i) % 256
    case Selector(f, _) => values[f].tag / Power(i) % 256
    case Union(f, _, _) => values[f].bytes[i]
    case Optional(f, _) => values[f].supplied.value / Power(i) % 256
  }

  lemma {:induction false} ItemEncoded(shape: Shape, item: Item, i: nat)
    requires shape.Fits(item) && i < shape.Width()
    ensures shape.Encode(item)[i] == ItemByte(shape, item, i)
  {
    if shape.Integer? {
      EncodedLeastFirst(shape.scalar, item.n, i);
    }
  }

  lemma {:induction false} ConcatSplits(shape: Shape, items: seq<Item>, e: nat)
    requires e <= |items|
    ensures Concat(shape, items) == Concat(shape, items[..e]) + Concat(shape, items[e..])
  {
    if e == 0 {
      ConcatAll(shape, items);
    } else {
      hide *;
      ConcatFirst(shape, items);
      ConcatFirst(shape, items[..e]);
      FirstApart(items, e);
      ConcatSplits(shape, items[1..], e - 1);
      Associative(shape.Encode(items[0]), Concat(shape, items[1..][..e - 1]), Concat(shape, items[e..]));
    }
  }

  lemma {:induction false} FirstApart(items: seq<Item>, e: nat)
    requires 0 < e <= |items|
    ensures items[..e] != [] && items[..e][0] == items[0]
    ensures items[..e][1..] == items[1..][..e - 1] && items[1..][e - 1..] == items[e..]
  {
  }

  lemma {:induction false} ConcatAll(shape: Shape, items: seq<Item>)
    ensures Concat(shape, items) == Concat(shape, items[..0]) + Concat(shape, items[0..])
  {
    assert items[0..] == items && items[..0] == [];
    hide Concat;
    assert Concat(shape, []) == [] by { EmptyConcat(shape); }
    assert [] + Concat(shape, items) == Concat(shape, items);
  }

  lemma {:induction false} EmptyConcat(shape: Shape)
    ensures Concat(shape, []) == []
  {
  }

  lemma {:induction false} ConcatFirst(shape: Shape, items: seq<Item>)
    requires items != []
    ensures Concat(shape, items) == shape.Encode(items[0]) + Concat(shape, items[1..])
  {
  }

  lemma {:induction false} ElementEncoded(shape: Shape, items: seq<Item>, e: nat, i: nat)
    requires AllFit(shape, items) && e < |items| && i < shape.Width()
    ensures e * shape.Width() + i < |Concat(shape, items)|
    ensures Concat(shape, items)[e * shape.Width() + i] == ItemByte(shape, items[e], i)
  {
    assert AllFit(shape, items[..e]) && shape.Fits(items[e]);
    ItemEncoded(shape, items[e], i);
    ConcatSplits(shape, items, e);
    ConcatFirst(shape, items[e..]);
    assert |Concat(shape, items[..e])| == e * shape.Width() && |shape.Encode(items[e])| == shape.Width();
    hide *;
    Amid(Concat(shape, items), Concat(shape, items[..e]), shape.Encode(items[e]), Concat(shape, items[e..]),
         Concat(shape, items[e..][1..]), i);
  }

  lemma {:induction false} Amid(whole: seq<byte>, before: seq<byte>, part: seq<byte>, rest: seq<byte>, after: seq<byte>, i: nat)
    requires whole == before + rest && rest == part + after && i < |part|
    ensures |before| + i < |whole| && whole[|before| + i] == part[i]
  {
  }

  lemma {:induction false} Past(whole: seq<byte>, before: seq<byte>, part: seq<byte>, rest: seq<byte>, after: seq<byte>)
    requires whole == before + rest && rest == part + after
    ensures |before + part| == |before| + |part| && whole == (before + part) + after
  {
  }

  lemma {:induction false} ArrayEncoded(shape: Shape, items: seq<Item>, i: nat)
    requires AllFit(shape, items) && i < |items| * shape.Width()
    ensures i < |Concat(shape, items)| && Concat(shape, items)[i] == ArrayByte(shape, items, i)
  {
    hide ElementAt, PlaceIn, Concat, ItemByte;
    ElementOf(i, |items|, shape.Width());
    ElementEncoded(shape, items, ElementAt(i, shape.Width()), PlaceIn(i, shape.Width()));
  }

  lemma {:induction false} MemberEncoded(slot: Slot, values: seq<Value>, i: nat)
    requires Holds(slot, values) && i < SlotSize(slot, values)
    ensures i < |SlotBytes(slot, values)| && SlotBytes(slot, values)[i] == MemberByte(slot, values, i)
  {
    hide ArrayByte, ItemByte, Concat, AllFit;
    match slot {
      case Fixed(f, shape) => ItemEncoded(shape, values[f].item, i);
      case FixedArray(f, shape, _) => ArrayEncoded(shape, values[f].items, i);
      case Elements(f, shape, _) => ArrayEncoded(shape, values[f].items, i);
      case Count(f, scalar) => EncodedLeastFirst(scalar, |values[f].items|, i);
      case Selector(f, scalar) => EncodedLeastFirst(scalar, values[f].tag, i);
      case Union(_, _, _) =>
      case Optional(f, scalar) => EncodedLeastFirst(scalar, values[f].supplied.value, i);
    }
  }

  lemma {:induction false} BytesOfSize(slot: Slot, values: seq<Value>)
    requires Holds(slot, values)
    ensures |SlotBytes(slot, values)| == SlotSize(slot, values)
  {
  }

  /** The encodings of the first `k` members. */
  function EncodeTo(slots: seq<Slot>, values: seq<Value>, k: nat): seq<byte>
    requires Conforms(slots, values) && k <= |slots|
  {
    if k == 0 then [] else
    assert Holds(slots[k - 1], values);
    EncodeTo(slots, values, k - 1) + SlotBytes(slots[k - 1], values)
  }

  lemma {:induction false} NoneBefore(slots: seq<Slot>, values: seq<Value>)
    requires Conforms(slots, values)
    ensures EncodeTo(slots, values, 0) == [] && Offset(slots, values, 0) == 0
    ensures Encode(slots, values) == EncodeTo(slots, values, 0) + EncodeFrom(slots, values, 0)
  {
    hide EncodeFrom, Conforms;
    assert [] + EncodeFrom(slots, values, 0) == EncodeFrom(slots, values, 0);
  }

  lemma {:induction false} OneMoreBefore(slots: seq<Slot>, values: seq<Value>, k: nat)
    requires Conforms(slots, values) && 0 < k <= |slots|
    ensures Holds(slots[k - 1], values)
    ensures Offset(slots, values, k) == Offset(slots, values, k - 1) + SlotSize(slots[k - 1], values)
    ensures EncodeTo(slots, values, k) == EncodeTo(slots, values, k - 1) + SlotBytes(slots[k - 1], values)
    ensures EncodeFrom(slots, values, k - 1) == SlotBytes(slots[k - 1], values) + EncodeFrom(slots, values, k)
  {
    assert Holds(slots[k - 1], values);
    hide SlotBytes, SlotSize, Holds;
  }

  lemma {:induction false} EncodedUpTo(slots: seq<Slot>, values: seq<Value>, k: nat)
    requires Conforms(slots, values) && k <= |slots|
    ensures |EncodeTo(slots, values, k)| == Offset(slots, values, k)
    ensures Encode(slots, values) == EncodeTo(slots, values, k) + EncodeFrom(slots, values, k)
  {
    if k == 0 {
      NoneBefore(slots, values);
    } else {
      hide *;
      OneMoreBefore(slots, values, k);
      EncodedUpTo(slots, values, k - 1);
      BytesOfSize(slots[k - 1], values);
      Past(Encode(slots, values), EncodeTo(slots, values, k - 1), SlotBytes(slots[k - 1], values),
           EncodeFrom(slots, values, k - 1), EncodeFrom(slots, values, k));
    }
  }

  /** The whole encoding, byte by byte: the members follow one another in layout order, and
      byte `i` of each is fixed by its value. */
  lemma {:induction false} EncodedByteByByte(slots: seq<Slot>, values: seq<Value>, k: nat, i: nat)
    requires Conforms(slots, values) && k < |slots| && Holds(slots[k], values) && i < SlotSize(slots[k], values)
    ensures |Encode(slots, values)| == Offset(slots, values, |slots|)
    ensures Offset(slots, values, k) + i < |Encode(slots, values)|
    ensures Encode(slots, values)[Offset(slots, values, k) + i] == MemberByte(slots[k], values, i)
  {
    assert EncodeFrom(slots, values, |slots|) == [];
    assert EncodeFrom(slots, values, k) == SlotBytes(slots[k], values) + EncodeFrom(slots, values, k + 1);
    hide *;
    EncodedUpTo(slots, values, |slots|);
    EncodedUpTo(slots, values, k);
    MemberEncoded(slots[k], values, i);
    Amid(Encode(slots, values), EncodeTo(slots, values, k), SlotBytes(slots[k], values), EncodeFrom(slots, values, k),
         EncodeFrom(slots, values, k + 1), i);
  }

  // ----- from the layout

  /** Member `d` is counted or selected by the member `j`. */
  predicate Serves(fields: seq<Field>, j: nat, d: nat)
    requires j < |fields| && d < |fields|
  {
    fields[d].ty.Reference() == Some(fields[j].name)
  }

  predicate ServesNone(fields: seq<Field>, j: nat)
    requires j < |fields|
  {
    forall d | 0 <= d < |fields| :: !Serves(fields, j, d)
  }

  /** The declared fields before the `j`th member: one for every member serving none. */
  function DeclaredBefore(fields: seq<Field>, j: nat): set<nat>
    requires j <= |fields|
  {
    set i: nat | i < j && ServesNone(fields, i)
  }

  lemma {:induction false} DerivedServes(fields: seq<Field>, j: nat)
    requires j < |fields|
    ensures Derived(fields, j) <==> !ServesNone(fields, j)
  {
    var d := Dependent(fields, fields[j].name);
    if d.Some? {
      assert Serves(fields, j, d.value);
    }
  }

  lemma {:induction false} FieldsCounted(fields: seq<Field>, j: nat)
    requires j <= |fields|
    ensures FieldOf(fields, j) == |DeclaredBefore(fields, j)|
  {
    if j > 0 {
      FieldsCounted(fields, j - 1);
      DerivedServes(fields, j - 1);
      var before := DeclaredBefore(fields, j - 1);
      assert DeclaredBefore(fields, j) == if ServesNone(fields, j - 1) then before + {j - 1} else before;
    }
  }

  /** Byte `i` of an array of elements this wide. */
  predicate ArrayAt(width: nat, value: Value, i: nat, byte: int) {
    && value.Many? && width > 0 && ElementAt(i, width) < |value.items|
    && match value.items[ElementAt(i, width)]
       case Number(n) => byte == n / Power(PlaceIn(i, width)) % 256
       case Packed(bytes) => |bytes| == width && byte == bytes[PlaceIn(i, width)]
  }

  /** Byte `i` of a declared field. */
  predicate FieldByte(structs: Structs, ty: FieldType, value: Value, i: nat, byte: int)
    requires Acyclic(structs)
  {
    match ty
    case ScalarField(_) => value.One? && value.item.Number? && byte == value.item.n / Power(i) % 256
    case StructField(_) => value.One? && value.item.Packed? && i < |value.item.bytes| && byte == value.item.bytes[i]
    case ArrayField(element, _) =>
      ElementWidth(structs, element).Some? && ArrayAt(ElementWidth(structs, element).value, value, i, byte)
    case CountedField(element, _, _) =>
      ElementWidth(structs, element).Some? && ArrayAt(ElementWidth(structs, element).value, value, i, byte)
    case UnionField(_, _) => value.Alternative? && i < |value.bytes| && byte == value.bytes[i]
    case OptionalField(_) => value.Maybe? && value.supplied.Some? && byte == value.supplied.value / Power(i) % 256
  }

  /** Byte `i` of the count of a buffer, or of the selector of a union. */
  predicate CountByte(ty: FieldType, value: Value, i: nat, byte: int) {
    match ty
    case CountedField(_, _, _) => value.Many? && byte == |value.items| / Power(i) % 256
    case _ => value.Alternative? && byte == value.tag / Power(i) % 256
  }

  lemma {:induction false} FieldSlot(structs: Structs, fields: seq<Field>, j: nat, slot: Slot, values: seq<Value>, i: nat)
    requires Acyclic(structs) && j < |fields| && PlanMember(structs, fields, j, Params) == Some(slot)
    requires Dependent(fields, fields[j].name).None? && Holds(slot, values) && i < SlotSize(slot, values)
    ensures FieldOf(fields, j) < |values|
    ensures FieldByte(structs, fields[j].ty, values[FieldOf(fields, j)], i, MemberByte(slot, values, i))
  {
    hide Power, Dependent, FieldOf, Position, StructWidth;
    match slot {
      case FixedArray(f, shape, _) => ArraySlot(shape, values[f], i);
      case Elements(f, shape, _) => ArraySlot(shape, values[f], i);
      case _ =>
    }
    hide ArrayByte, ArrayAt, IntegerNamed;
  }

  lemma {:induction false} ArraySlot(shape: Shape, value: Value, i: nat)
    requires value.Many? && AllFit(shape, value.items) && i < |value.items| * shape.Width()
    ensures ArrayAt(shape.Width(), value, i, ArrayByte(shape, value.items, i))
  {
    hide Power, ElementAt, PlaceIn;
    ElementOf(i, |value.items|, shape.Width());
  }

  lemma {:induction false} CountSlot(structs: Structs, fields: seq<Field>, j: nat, d: nat, slot: Slot, values: seq<Value>,
                                     i: nat)
    requires Acyclic(structs) && j < |fields| && d < |fields| && PlanMember(structs, fields, j, Params) == Some(slot)
    requires Dependent(fields, fields[j].name) == Some(d) && Holds(slot, values) && i < SlotSize(slot, values)
    ensures FieldOf(fields, d) < |values|
    ensures CountByte(fields[d].ty, values[FieldOf(fields, d)], i, MemberByte(slot, values, i))
  {
    hide Power, Dependent, FieldOf, Position, StructWidth, ArrayByte;
  }

  /** What a member serving none is written as: the value of the field declaring it. */
  lemma {:induction false} FieldWritten(structs: Structs, fields: seq<Field>, slots: seq<Slot>, values: seq<Value>,
                                        j: nat, i: nat)
    requires Acyclic(structs) && Plans(structs, fields, Params, slots) && Conforms(slots, values)
    requires j < |fields| && ServesNone(fields, j) && Holds(slots[j], values) && i < SlotSize(slots[j], values)
    ensures var f, at := |DeclaredBefore(fields, j)|, Offset(slots, values, j) + i;
            && f < |values| && at < |Encode(slots, values)|
            && FieldByte(structs, fields[j].ty, values[f], i, Encode(slots, values)[at])
  {
    assert PlanMember(structs, fields, j, Params) == Some(slots[j]);
    DerivedServes(fields, j);
    assert Dependent(fields, fields[j].name).None?;
    hide *;
    EncodedByteByByte(slots, values, j, i);
    FieldsCounted(fields, j);
    FieldSlot(structs, fields, j, slots[j], values, i);
  }

  /** What a count or selector is written as: the number of elements, or the chosen
      alternative, of the first field it serves. */
  lemma {:induction false} CountWritten(structs: Structs, fields: seq<Field>, slots: seq<Slot>, values: seq<Value>,
                                        j: nat, d: nat, i: nat)
    requires Acyclic(structs) && Plans(structs, fields, Params, slots) && Conforms(slots, values)
    requires j < |fields| && d < |fields| && Serves(fields, j, d) && forall e | 0 <= e < d :: !Serves(fields, j, e)
    requires Holds(slots[j], values) && i < SlotSize(slots[j], values)
    ensures var f, at := |DeclaredBefore(fields, d)|, Offset(slots, values, j) + i;
            && f < |values| && at < |Encode(slots, values)|
            && CountByte(fields[d].ty, values[f], i, Encode(slots, values)[at])
  {
    assert PlanMember(structs, fields, j, Params) == Some(slots[j]);
    FirstServed(fields, j, d);
    hide *;
    EncodedByteByByte(slots, values, j, i);
    FieldsCounted(fields, d);
    CountSlot(structs, fields, j, d, slots[j], values, i);
  }

  lemma {:induction false} FirstServed(fields: seq<Field>, j: nat, d: nat)
    requires j < |fields| && d < |fields| && Serves(fields, j, d) && forall e | 0 <= e < d :: !Serves(fields, j, e)
    ensures Dependent(fields, fields[j].name) == Some(d)
  {
    var first := Dependent(fields, fields[j].name);
    assert first.Some? && Serves(fields, j, first.value);
  }
}

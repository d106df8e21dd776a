/** Optional members end the parameters, and the bytes still say which were supplied:
    distinct accepted values have distinct encodings
    (crates/stm32wb-hci-macros/src/command.rs). */
module Unambiguous {
  import opened Options
  import opened Bytes
  import opened Layout
  import opened Plan
  import opened Encoder
  import opened Constructor
  import opened RoundTrip

  // ----- supplied optional members form a prefix

  /** An optional slot's field, in the list of optional fields. */
  lemma {:induction false} OptionalListed(slots: seq<Slot>, n: nat, k: nat)
    requires k < n <= |slots| && slots[k].Optional?
    ensures |OptionalFields(slots[..k])| < |OptionalFields(slots[..n])|
    ensures OptionalFields(slots[..n])[|OptionalFields(slots[..k])|] == slots[k].field
    decreases n
  {
    assert slots[..n][..n - 1] == slots[..n - 1];
    if k < n - 1 {
      OptionalListed(slots, n - 1, k);
    }
  }

  lemma {:induction false} OptionalsGrow(slots: seq<Slot>, j: nat, k: nat)
    requires j <= k <= |slots|
    ensures |OptionalFields(slots[..j])| <= |OptionalFields(slots[..k])|
    decreases k
  {
    if j < k {
      assert slots[..k][..k - 1] == slots[..k - 1];
      OptionalsGrow(slots, j, k - 1);
    }
  }

  lemma {:induction false} NoGap(values: seq<Value>, optional: seq<nat>, i: nat, j: nat)
    requires i <= j < |optional|
    requires forall k | 0 < k < |optional| :: Supplied(values, optional[k]) ==> Supplied(values, optional[k - 1])
    requires Supplied(values, optional[j])
    ensures Supplied(values, optional[i])
    decreases j
  {
    if i < j {
      NoGap(values, optional, i, j - 1);
    }
  }

  /** The pairwise checks of the constructor leave no gap anywhere. */
  lemma {:induction false} SuppliedPrefix(slots: seq<Slot>, values: seq<Value>, i: nat, j: nat)
    requires Accepts(slots, values) && i <= j < |slots| && slots[i].Optional? && slots[j].Optional?
    requires Supplied(values, slots[j].field)
    ensures Supplied(values, slots[i].field)
  {
    assert slots[..|slots|] == slots;
    OptionalListed(slots, |slots|, i);
    OptionalListed(slots, |slots|, j);
    OptionalsGrow(slots, i, j);
    NoGap(values, OptionalFields(slots), |OptionalFields(slots[..i])|, |OptionalFields(slots[..j])|);
  }

  /** The slot an optional field is listed for: later ones for later positions. */
  lemma {:induction false} ListedSlot(slots: seq<Slot>, i: nat) returns (k: nat)
    requires i < |OptionalFields(slots)|
    ensures k < |slots| && slots[k].Optional? && slots[k].field == OptionalFields(slots)[i]
    ensures |OptionalFields(slots[..k])| == i
    decreases |slots|
  {
    var last := |slots| - 1;
    if i < |OptionalFields(slots[..last])| {
      k := ListedSlot(slots[..last], i);
      assert slots[..last][..k] == slots[..k];
    } else {
      k := last;
    }
  }

  /** The optional members supplied are those before some member. */
  predicate PrefixSupplied(slots: seq<Slot>, values: seq<Value>, p: nat) {
    forall k | 0 <= k < |slots| && slots[k].Optional? :: Supplied(values, slots[k].field) <==> k < p
  }

  lemma {:induction false} PrefixHasNoGaps(slots: seq<Slot>, values: seq<Value>, p: nat)
    requires PrefixSupplied(slots, values, p)
    ensures NoGaps(slots, values)
  {
    var optional := OptionalFields(slots);
    forall i | 0 < i < |optional| && Supplied(values, optional[i]) ensures Supplied(values, optional[i - 1]) {
      var j := ListedSlot(slots, i - 1);
      var k := ListedSlot(slots, i);
      if k < j {
        OptionalsGrow(slots, k, j);
      }
      assert Supplied(values, slots[k].field);
    }
  }

  lemma {:induction false} NoGapsPrefix(slots: seq<Slot>, values: seq<Value>) returns (p: nat)
    requires NoGaps(slots, values)
    ensures PrefixSupplied(slots, values, p)
  {
    if k :| 0 <= k < |slots| && slots[k].Optional? && !Supplied(values, slots[k].field) {
      p := FirstOmitted(slots, values, k);
      forall j | 0 <= j < |slots| && slots[j].Optional? ensures Supplied(values, slots[j].field) <==> j < p {
        if j > p && Supplied(values, slots[j].field) {
          assert slots[..|slots|] == slots;
          OptionalListed(slots, |slots|, p);
          OptionalListed(slots, |slots|, j);
          OptionalsGrow(slots, p, j);
          NoGap(values, OptionalFields(slots), |OptionalFields(slots[..p])|, |OptionalFields(slots[..j])|);
        }
      }
    } else {
      p := |slots|;
    }
  }

  lemma {:induction false} FirstOmitted(slots: seq<Slot>, values: seq<Value>, k: nat) returns (p: nat)
    requires k < |slots| && slots[k].Optional? && !Supplied(values, slots[k].field)
    ensures p <= k && slots[p].Optional? && !Supplied(values, slots[p].field)
    ensures forall j | 0 <= j < p && slots[j].Optional? :: Supplied(values, slots[j].field)
    decreases k
  {
    if j :| 0 <= j < k && slots[j].Optional? && !Supplied(values, slots[j].field) {
      p := FirstOmitted(slots, values, j);
    } else {
      p := k;
    }
  }

  lemma {:induction false} SeveralCounted(slots: seq<Slot>)
    ensures CountedMembers(slots) > 0 <==> exists k | 0 <= k < |slots| :: slots[k].Elements?
    ensures CountedMembers(slots) > 1 <==> exists j, k | 0 <= j < k < |slots| :: slots[j].Elements? && slots[k].Elements?
  {
    if slots != [] {
      SeveralCounted(slots[1..]);
      if j, k :| 0 <= j < k < |slots[1..]| && slots[1..][j].Elements? && slots[1..][k].Elements? {
        assert slots[j + 1].Elements? && slots[k + 1].Elements?;
      }
      if k :| 0 <= k < |slots[1..]| && slots[1..][k].Elements? {
        assert slots[k + 1].Elements?;
      }
      if j, k :| 0 <= j < k < |slots| && slots[j].Elements? && slots[k].Elements? {
        assert slots[1..][k - 1].Elements?;
        if j > 0 {
          assert slots[1..][j - 1].Elements?;
        }
      }
      if k :| 0 < k < |slots| && slots[k].Elements? {
        assert slots[1..][k - 1].Elements?;
      }
    }
  }

  /** The constructor accepts a value exactly if every buffer is within its capacity, several
      of them are within 255 bytes in all, and the optional members supplied are a prefix. */
  lemma {:induction false} AcceptsExactly(slots: seq<Slot>, values: seq<Value>)
    requires Conforms(slots, values)
    ensures Accepts(slots, values) <==>
            && (forall k | 0 <= k < |slots| && slots[k].Elements? ::
                  Holds(slots[k], values) && |values[slots[k].field].items| <= slots[k].capacity)
            && ((exists j, k | 0 <= j < k < |slots| :: slots[j].Elements? && slots[k].Elements?) ==> |Encode(slots, values)| <= 255)
            && exists p: nat :: PrefixSupplied(slots, values, p)
  {
    SizeIsLength(slots, values, 0);
    SeveralCounted(slots);
    hide Conforms, PrefixSupplied, SizeFrom, EncodeFrom, Supplied;
    assert Accepts(slots, values) ==> NoGaps(slots, values);
    if NoGaps(slots, values) {
      var p := NoGapsPrefix(slots, values);
    }
    if p: nat :| PrefixSupplied(slots, values, p) {
      PrefixHasNoGaps(slots, values, p);
    }
  }

  // ----- equal encodings

  /** Both values give a slot the same content. */
  predicate Same(slot: Slot, v: seq<Value>, w: seq<Value>)
    requires Holds(slot, v) && Holds(slot, w)
  {
    match slot
    case Count(f, _) => |v[f].items| == |w[f].items|
    case Selector(f, _) => v[f].tag == w[f].tag
    case _ => v[slot.field] == w[slot.field]
  }

  /** Content of the same length and the same encoding is the same. */
  lemma {:induction false} SameBytesSame(slot: Slot, v: seq<Value>, w: seq<Value>)
    requires Holds(slot, v) && Holds(slot, w)
    requires slot.Count? ==> slot.scalar.Holds(|v[slot.counted].items|) && slot.scalar.Holds(|w[slot.counted].items|)
    requires slot.Selector? ==> slot.scalar.Holds(v[slot.union].tag) && slot.scalar.Holds(w[slot.union].tag)
    requires slot.Elements? ==> |v[slot.field].items| == |w[slot.field].items|
    requires slot.Union? ==> v[slot.field].tag == w[slot.field].tag
    requires slot.Optional? ==> (v[slot.field].supplied.Some? <==> w[slot.field].supplied.Some?)
    requires SlotBytes(slot, v) == SlotBytes(slot, w)
    ensures Same(slot, v, w)
  {
    match slot {
      case Fixed(f, shape) =>
        ItemRoundTrips(shape, v[f].item);
        ItemRoundTrips(shape, w[f].item);
      case FixedArray(f, shape, _) =>
        ItemsRoundTrip(shape, v[f].items);
        ItemsRoundTrip(shape, w[f].items);
      case Elements(f, shape, _) =>
        ItemsRoundTrip(shape, v[f].items);
        ItemsRoundTrip(shape, w[f].items);
      case Count(f, scalar) =>
        ScalarRoundTrips(scalar, |v[f].items|);
        ScalarRoundTrips(scalar, |w[f].items|);
      case Selector(f, scalar) =>
        ScalarRoundTrips(scalar, v[f].tag);
        ScalarRoundTrips(scalar, w[f].tag);
      case Union(_, _, _) =>
      case Optional(f, scalar) =>
        if v[f].supplied.Some? {
          ScalarRoundTrips(scalar, v[f].supplied.value);
          ScalarRoundTrips(scalar, w[f].supplied.value);
        }
    }
  }

  /** Counts and selectors fit the integers they are written as. */
  ghost predicate Written(slot: Slot, values: seq<Value>)
    requires Holds(slot, values)
  {
    match slot
    case Count(f, scalar) => scalar.Holds(|values[f].items|)
    case Selector(f, scalar) => scalar.Holds(values[f].tag)
    case _ => true
  }

  /** Only optional members follow an optional one. */
  predicate OptionalsLast(slots: seq<Slot>) {
    forall j, k | 0 <= j < k < |slots| && slots[j].Optional? :: slots[k].Optional?
  }

  /** An earlier member is derived from the buffer or union: its count or its selector. */
  predicate Told(slots: seq<Slot>, k: nat)
    requires k < |slots|
  {
    match slots[k]
    case Elements(f, _, _) => exists p | 0 <= p < k :: slots[p].Count? && slots[p].counted == f
    case Union(f, _, _) => exists p | 0 <= p < k :: slots[p].Selector? && slots[p].union == f
    case _ => true
  }

  /** A buffer whose length no earlier member tells is as long in both values, and a union
      whose alternative none tells has the same one. */
  predicate ShapeAlike(slots: seq<Slot>, v: seq<Value>, w: seq<Value>, k: nat)
    requires Conforms(slots, v) && Conforms(slots, w) && k < |slots|
  {
    assert Holds(slots[k], v) && Holds(slots[k], w);
    Told(slots, k) ||
    match slots[k]
    case Elements(f, _, _) => |v[f].items| == |w[f].items|
    case Union(f, _, _) => v[f].tag == w[f].tag
    case _ => true
  }

  lemma {:induction false} NothingSupplied(slots: seq<Slot>, values: seq<Value>, k: nat)
    requires Conforms(slots, values) && k <= |slots|
    requires forall j | k <= j < |slots| :: slots[j].Optional? && !Supplied(values, slots[j].field)
    ensures EncodeFrom(slots, values, k) == []
    decreases |slots| - k
  {
    if k < |slots| {
      NothingSupplied(slots, values, k + 1);
      assert Holds(slots[k], values);
    }
  }

  /** An optional member is supplied in one value only if it is in the other: the bytes
      would end here otherwise. */
  lemma {:induction false} SameSupplied(slots: seq<Slot>, v: seq<Value>, w: seq<Value>, k: nat)
    requires Accepts(slots, v) && Accepts(slots, w) && OptionalsLast(slots)
    requires k < |slots| && slots[k].Optional? && Supplied(v, slots[k].field)
    requires EncodeFrom(slots, v, k) == EncodeFrom(slots, w, k)
    ensures Supplied(w, slots[k].field)
  {
    assert Holds(slots[k], v);
    assert |EncodeFrom(slots, v, k)| >= slots[k].scalar.Width();
    if !Supplied(w, slots[k].field) {
      forall j | k <= j < |slots|
        ensures slots[j].Optional? && !Supplied(w, slots[j].field)
      {
        if Supplied(w, slots[j].field) {
          SuppliedPrefix(slots, w, k, j);
        }
      }
      NothingSupplied(slots, w, k);
    }
  }

  lemma {:induction false} SameNext(slots: seq<Slot>, v: seq<Value>, w: seq<Value>, k: nat)
    requires Accepts(slots, v) && Accepts(slots, w) && OptionalsLast(slots) && k < |slots|
    requires forall i | 0 <= i < |slots| :: Holds(slots[i], v) && Holds(slots[i], w)
    requires ShapeAlike(slots, v, w, k)
    requires Written(slots[k], v) && Written(slots[k], w)
    requires forall i | 0 <= i < k :: Same(slots[i], v, w)
    requires EncodeFrom(slots, v, k) == EncodeFrom(slots, w, k)
    ensures Same(slots[k], v, w)
    ensures EncodeFrom(slots, v, k + 1) == EncodeFrom(slots, w, k + 1)
  {
    var slot := slots[k];
    if slot.Elements? && Told(slots, k) {
      var p :| 0 <= p < k && slots[p].Count? && slots[p].counted == slot.field;
      assert Same(slots[p], v, w);
    } else if slot.Union? && Told(slots, k) {
      var p :| 0 <= p < k && slots[p].Selector? && slots[p].union == slot.field;
      assert Same(slots[p], v, w);
    } else if slot.Optional? {
      if Supplied(v, slot.field) {
        SameSupplied(slots, v, w, k);
      } else if Supplied(w, slot.field) {
        SameSupplied(slots, w, v, k);
      }
    }
    var a, b := SlotBytes(slot, v), SlotBytes(slot, w);
    assert |a| == |b|;
    SplitEqual(a, EncodeFrom(slots, v, k + 1), b, EncodeFrom(slots, w, k + 1));
    SameBytesSame(slot, v, w);
  }

  lemma {:induction false} SplitEqual(a: seq<byte>, x: seq<byte>, b: seq<byte>, y: seq<byte>)
    requires a + x == b + y && |a| == |b|
    ensures a == b && x == y
  {
    assert a == (a + x)[..|a|] && b == (b + y)[..|b|];
    assert x == (a + x)[|a|..] && y == (b + y)[|b|..];
  }

  lemma {:induction false} SameUpTo(slots: seq<Slot>, v: seq<Value>, w: seq<Value>, k: nat)
    requires Accepts(slots, v) && Accepts(slots, w) && OptionalsLast(slots) && k <= |slots|
    requires forall i | 0 <= i < |slots| :: ShapeAlike(slots, v, w, i)
    requires forall i | 0 <= i < |slots| :: Holds(slots[i], v) && Holds(slots[i], w)
    requires forall i | 0 <= i < |slots| :: Written(slots[i], v) && Written(slots[i], w)
    requires Encode(slots, v) == Encode(slots, w)
    ensures forall i | 0 <= i < k :: Same(slots[i], v, w)
    ensures EncodeFrom(slots, v, k) == EncodeFrom(slots, w, k)
  {
    hide Accepts, OptionalsLast, ShapeAlike, Conforms, Holds, Same, Written, EncodeFrom;
    if k > 0 {
      SameUpTo(slots, v, w, k - 1);
      SameNext(slots, v, w, k - 1);
    }
  }

  // ----- planned layouts

  lemma {:induction false} PlannedOptionalsLast(structs: Structs, fields: seq<Field>, slots: seq<Slot>)
    requires Acyclic(structs) && ValidLayout(structs, fields) && Plans(structs, fields, Params, slots)
    ensures OptionalsLast(slots)
  {
    forall k | 0 <= k < |slots|
      ensures slots[k].Optional? <==> fields[k].ty.OptionalField?
      ensures forall j | 0 <= j < k :: fields[j].ty.OptionalField? ==> fields[k].ty.OptionalField?
    {
      assert PlanMember(structs, fields, k, Params) == Some(slots[k]);
      assert ValidMember(structs, fields, k);
    }
    hide Plans, ValidLayout;
  }

  /** With one dependent each, every buffer has its own count and every union its own
      selector before it. */
  lemma {:induction false} OneDependentTold(structs: Structs, fields: seq<Field>, slots: seq<Slot>, k: nat)
    requires Acyclic(structs) && ValidLayout(structs, fields) && Plans(structs, fields, Params, slots) && k < |fields|
    requires OneDependentEach(fields)
    ensures Told(slots, k)
  {
    assert PlanMember(structs, fields, k, Params) == Some(slots[k]);
    if slots[k].Elements? || slots[k].Union? {
      var name := fields[k].ty.Reference().value;
      ReferenceIsEarlier(structs, fields, k);
      var p := Position(fields, name).value;
      assert Dependent(fields, name) == Some(k);
      assert PlanMember(structs, fields, p, Params) == Some(slots[p]);
    }
  }

  lemma {:induction false} FieldDeclares(fields: seq<Field>, k: nat, f: nat) returns (j: nat)
    requires k <= |fields| && f < FieldOf(fields, k)
    ensures j < k && !Derived(fields, j) && FieldOf(fields, j) == f
    decreases k
  {
    if f < FieldOf(fields, k - 1) {
      j := FieldDeclares(fields, k - 1, f);
    } else {
      j := k - 1;
    }
  }

  lemma {:induction false} AllSame(structs: Structs, fields: seq<Field>, slots: seq<Slot>, v: seq<Value>, w: seq<Value>)
    requires Acyclic(structs) && ValidLayout(structs, fields)
    requires Plans(structs, fields, Params, slots) && |slots| == |fields|
    requires Accepts(slots, v) && Accepts(slots, w) && Encode(slots, v) == Encode(slots, w)
    requires forall i | 0 <= i < |slots| :: ShapeAlike(slots, v, w, i)
    ensures forall i | 0 <= i < |slots| :: Holds(slots[i], v) && Holds(slots[i], w) && Same(slots[i], v, w)
  {
    PlannedOptionalsLast(structs, fields, slots);
    forall i | 0 <= i < |slots|
      ensures Holds(slots[i], v) && Holds(slots[i], w) && Written(slots[i], v) && Written(slots[i], w)
    {
      assert Holds(slots[i], v) && Holds(slots[i], w);
      AllWritten(structs, fields, slots, v, i);
      AllWritten(structs, fields, slots, w, i);
    }
    hide *;
    SameUpTo(slots, v, w, |slots|);
  }

  lemma {:induction false} SameField(structs: Structs, fields: seq<Field>, slots: seq<Slot>, v: seq<Value>,
                                     w: seq<Value>, f: nat)
    requires Acyclic(structs) && Plans(structs, fields, Params, slots) && |slots| == |fields|
    requires |v| == |w| == FieldOf(fields, |fields|) && f < |v|
    requires forall i | 0 <= i < |slots| :: Holds(slots[i], v) && Holds(slots[i], w) && Same(slots[i], v, w)
    ensures v[f] == w[f]
  {
    var j := FieldDeclares(fields, |fields|, f);
    var d := PlannedField(structs, fields, slots, j);
    assert PlanMember(structs, fields, j, Params) == Some(slots[j]);
    assert Same(slots[j], v, w);
    hide Plans, FieldOf, Holds;
  }

  /** Two accepted values of every declared field with the same encoding are equal exactly
      if they agree on the lengths and alternatives no earlier member tells, whichever
      optional members they supply. */
  lemma {:induction false} SameEncoding(structs: Structs, fields: seq<Field>, slots: seq<Slot>, v: seq<Value>,
                                        w: seq<Value>)
    requires Acyclic(structs) && ValidLayout(structs, fields)
    requires PlanOf(structs, fields, Params) == Some(slots)
    requires Accepts(slots, v) && Accepts(slots, w)
    requires |v| == |w| == FieldOf(fields, |fields|)
    requires Encode(slots, v) == Encode(slots, w)
    ensures v == w <==> forall i | 0 <= i < |slots| :: ShapeAlike(slots, v, w, i)
  {
    if forall i | 0 <= i < |slots| :: ShapeAlike(slots, v, w, i) {
      PlanAt(structs, fields, Params);
      AllSame(structs, fields, slots, v, w);
      forall f | 0 <= f < |v|
        ensures v[f] == w[f]
      {
        SameField(structs, fields, slots, v, w, f);
      }
      hide *;
    }
  }

  /** With one dependent for each count and selector, the encoding tells every value. */
  lemma {:induction false} DistinctEncodings(structs: Structs, fields: seq<Field>, slots: seq<Slot>, v: seq<Value>,
                                             w: seq<Value>)
    requires Acyclic(structs) && ValidLayout(structs, fields) && OneDependentEach(fields)
    requires PlanOf(structs, fields, Params) == Some(slots)
    requires Accepts(slots, v) && Accepts(slots, w)
    requires |v| == |w| == FieldOf(fields, |fields|)
    requires Encode(slots, v) == Encode(slots, w)
    ensures v == w
  {
    PlanAt(structs, fields, Params);
    forall i | 0 <= i < |slots|
      ensures ShapeAlike(slots, v, w, i)
    {
      OneDependentTold(structs, fields, slots, i);
    }
    hide *;
    SameEncoding(structs, fields, slots, v, w);
  }

  lemma {:induction false} AllWritten(structs: Structs, fields: seq<Field>, slots: seq<Slot>, values: seq<Value>,
                                      i: nat)
    requires Acyclic(structs) && ValidLayout(structs, fields) && Plans(structs, fields, Params, slots)
    requires Accepts(slots, values) && i < |slots| && Holds(slots[i], values)
    ensures Written(slots[i], values)
  {
    if slots[i].Count? || slots[i].Selector? {
      assert PlanMember(structs, fields, i, Params) == Some(slots[i]);
      IntegerHeld(structs, fields, slots, values, i);
    }
  }

  // ----- a shared count is ambiguous

  function ThreeBuffers(): seq<Field> {
    [Field("Length", ScalarField(U8)),
     Field("Fore", CountedField(IntegerElement(U8), "Length", 2)),
     Field("Second_Buffer", CountedField(IntegerElement(U8), "Length", 2)),
     Field("Third_One", CountedField(IntegerElement(U8), "Length", 2))]
  }

  function ThreeSlots(): seq<Slot> {
    [Count(0, U8), Elements(0, Integer(U8), 2), Elements(1, Integer(U8), 2), Elements(2, Integer(U8), 2)]
  }

  /** One byte, in the second buffer or in the third. */
  function OneByte(second: bool): seq<Value> {
    if second then [Many([]), Many([Number(7)]), Many([])] else [Many([]), Many([]), Many([Number(7)])]
  }

  lemma {:induction false} ThreeBuffersValid()
    ensures Acyclic(map[]) && ValidLayout(map[], ThreeBuffers())
  {
    var fields := ThreeBuffers();
    assert Ranks(map[], map[]);
    assert fields[0].name == "Length";
    assert forall j | 1 <= j < 4 :: EarlierUnsigned(fields, j, "Length");
  }

  lemma {:induction false} ThreeBuffersPlanned()
    ensures Acyclic(map[]) && PlanOf(map[], ThreeBuffers(), Params) == Some(ThreeSlots())
  {
    var fields, slots := ThreeBuffers(), ThreeSlots();
    PowersOfTheScalars();
    ThreeBuffersValid();
    assert Dependent(fields, "Length") == Some(1);
    assert Dependent(fields, "Fore") == None && Dependent(fields, "Second_Buffer") == None;
    assert Dependent(fields, "Third_One") == None;
    assert fields[0].name == "Length";
    assert Position(fields, "Length") == Some(0);
    assert FieldOf(fields, 1) == 0;
    assert FieldOf(fields, 2) == 1;
    assert FieldOf(fields, 3) == 2;
    hide ValidLayout;
    assert forall j | 0 <= j < 4 :: PlanMember(map[], fields, j, Params) == Some(slots[j]);
    assert PlanOf(map[], fields, Params).value == slots;
  }

  lemma {:induction false} OneByteAccepted(second: bool)
    ensures Conforms(ThreeSlots(), OneByte(second)) && Accepts(ThreeSlots(), OneByte(second))
  {
    var slots, values := ThreeSlots(), OneByte(second);
    PowersOfTheScalars();
    assert Conforms(slots, values);
    assert SizeFrom(slots, values, 2) <= 2;
  }

  lemma {:induction false} OneByteEncoded(second: bool)
    requires Conforms(ThreeSlots(), OneByte(second))
    ensures Encode(ThreeSlots(), OneByte(second)) == U8.Encode(0) + U8.Encode(7)
  {
    var slots, values := ThreeSlots(), OneByte(second);
    assert Concat(Integer(U8), [Number(7)]) == U8.Encode(7);
    assert EncodeFrom(slots, values, 3) == if second then [] else U8.Encode(7);
    assert EncodeFrom(slots, values, 2) == U8.Encode(7);
  }

  /** Three buffers sharing a count: two accepted values with one encoding. */
  lemma {:induction false} SharedCountAmbiguous()
    ensures Acyclic(map[]) && ValidLayout(map[], ThreeBuffers())
    ensures PlanOf(map[], ThreeBuffers(), Params) == Some(ThreeSlots())
    ensures exists v, w ::
              && Accepts(ThreeSlots(), v) && Accepts(ThreeSlots(), w)
              && Encode(ThreeSlots(), v) == Encode(ThreeSlots(), w) && v != w
  {
    hide *;
    ThreeBuffersValid();
    ThreeBuffersPlanned();
    OneByteAccepted(true);
    OneByteAccepted(false);
    OneByteEncoded(true);
    OneByteEncoded(false);
    OneByteDiffers();
  }

  lemma {:induction false} OneByteDiffers()
    ensures OneByte(true) != OneByte(false)
  {
    assert OneByte(true)[1] == Many([Number(7)]) && OneByte(false)[1] == Many([]);
  }
}

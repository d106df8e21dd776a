/** The direct call reads back what the encoder writes, exactly when every count and
    selector suits each member it describes. */
module RoundTrip {
  import opened Options
  import opened Bytes
  import opened Layout
  import opened Plan
  import opened Encoder
  import opened Constructor
  import opened DirectCall

  /** The argument a member's slot stands for. */
  function ArgOf(slot: Slot, values: seq<Value>): Arg
    requires Holds(slot, values)
  {
    match slot
    case Fixed(f, shape) =>
      if values[f].item.Number? then Integral(values[f].item.n) else Buffer(values[f].item.bytes)
    case FixedArray(f, _, _) => Array(values[f].items)
    case Count(f, _) => Integral(|values[f].items|)
    case Elements(f, _, _) => Array(values[f].items)
    case Selector(f, _) => Integral(values[f].tag)
    case Union(f, _, _) => Buffer(values[f].bytes)
    case Optional(f, _) => Buffer([])
  }

  function ArgsFrom(slots: seq<Slot>, values: seq<Value>, k: nat): seq<Arg>
    requires Conforms(slots, values) && k <= |slots|
    decreases |slots| - k
  {
    if k == |slots| then [] else [ArgOf(slots[k], values)] + ArgsFrom(slots, values, k + 1)
  }

  /** The count or selector the `j`th member names, as it is written, is the member's own
      length, or selects its width. A caller can compare them before the call. */
  predicate Suits(fields: seq<Field>, slots: seq<Slot>, values: seq<Value>, j: nat)
    requires |slots| == |fields| && j < |fields| && Conforms(slots, values)
  {
    match fields[j].ty.Reference()
    case None => true
    case Some(name) =>
      var p := Position(fields, name);
      p.Some? && Holds(slots[p.value], values) && Holds(slots[j], values) &&
      var written := ArgOf(slots[p.value], values);
      written.Integral? &&
      match slots[j]
      case Elements(f, _, _) => written.n == |values[f].items|
      case Union(f, variants, _) =>
        0 <= written.n < 0x1_0000_0000_0000_0000 && WidthFor(variants, written.n) == Some(|values[f].bytes|)
      case _ => true
  }

  /** Every count and selector has one dependent. */
  ghost predicate OneDependentEach(fields: seq<Field>) {
    forall i, j | 0 <= i < j < |fields| && fields[i].ty.Reference().Some? ::
      fields[i].ty.Reference() != fields[j].ty.Reference()
  }

  // ----- elements

  lemma {:induction false} ItemRoundTrips(shape: Shape, item: Item)
    requires shape.Fits(item)
    ensures shape.Decode(shape.Encode(item)) == item
  {
    if shape.Integer? {
      ScalarRoundTrips(shape.scalar, item.n);
    }
  }

  lemma {:induction false} ItemsRoundTrip(shape: Shape, items: seq<Item>)
    requires AllFit(shape, items)
    ensures |Concat(shape, items)| == |items| * shape.Width()
    ensures Split(shape, Concat(shape, items), |items|) == items
  {
    if items != [] {
      ItemRoundTrips(shape, items[0]);
      ItemsRoundTrip(shape, items[1..]);
      var bytes := Concat(shape, items);
      assert bytes[..shape.Width()] == shape.Encode(items[0]);
      assert bytes[shape.Width()..] == Concat(shape, items[1..]);
    }
  }

  // ----- integer members

  lemma {:induction false} NamedAt(structs: Structs, fields: seq<Field>, j: nat)
    requires Acyclic(structs) && ValidLayout(structs, fields) && j < |fields|
    ensures Position(fields, fields[j].name) == Some(j)
  {
    var p := Position(fields, fields[j].name).value;
    assert ValidMember(structs, fields, j);
  }

  lemma {:induction false} ReferenceIsEarlier(structs: Structs, fields: seq<Field>, j: nat)
    requires Acyclic(structs) && ValidLayout(structs, fields) && j < |fields|
    requires fields[j].ty.Reference().Some?
    ensures var p := Position(fields, fields[j].ty.Reference().value);
            p.Some? && p.value < j && fields[p.value].ty.ScalarField? && !fields[p.value].ty.scalar.IsSigned()
  {
    var name := fields[j].ty.Reference().value;
    assert ValidMember(structs, fields, j);
    var i :| 0 <= i < j && fields[i].name == name && fields[i].ty.ScalarField? && !fields[i].ty.scalar.IsSigned();
    NamedAt(structs, fields, i);
  }

  /** A count or selector is written without truncation. */
  lemma {:induction false} IntegerHeld(structs: Structs, fields: seq<Field>, slots: seq<Slot>, values: seq<Value>,
                                       j: nat)
    requires Acyclic(structs) && ValidLayout(structs, fields) && Plans(structs, fields, Params, slots)
    requires Conforms(slots, values) && WithinCapacity(slots, values)
    requires j < |fields| && fields[j].ty.ScalarField?
    ensures Holds(slots[j], values)
    ensures ArgOf(slots[j], values).Integral?
    ensures fields[j].ty.scalar.Holds(ArgOf(slots[j], values).n)
    ensures SlotBytes(slots[j], values) == fields[j].ty.scalar.Encode(ArgOf(slots[j], values).n)
  {
    var scalar := fields[j].ty.scalar;
    assert PlanMember(structs, fields, j, Params) == Some(slots[j]);
    assert Holds(slots[j], values);
    var dependent := Dependent(fields, fields[j].name);
    if dependent.Some? {
      var d := dependent.value;
      assert PlanMember(structs, fields, d, Params) == Some(slots[d]);
      assert Holds(slots[d], values);
      assert fields[d].ty.Reference() == Some(fields[j].name);
      ReferenceIsEarlier(structs, fields, d);
      NamedAt(structs, fields, j);
      assert IntegerNamed(fields, fields[j].name) == Some(scalar);
    }
  }

  /** What is known of the members before the `k`th is what was written for them. */
  ghost predicate KnowsFirst(fields: seq<Field>, slots: seq<Slot>, values: seq<Value>, k: nat, known: map<string, int>)
    requires |slots| == |fields| && k <= |fields| && Conforms(slots, values)
  {
    forall i | 0 <= i < k && fields[i].ty.ScalarField? ::
      && fields[i].name in known && Holds(slots[i], values)
      && ArgOf(slots[i], values) == Integral(known[fields[i].name])
  }

  // ----- one member

  lemma {:induction false} TakeWritten(bytes: seq<byte>, tail: seq<byte>)
    ensures TakeFrom(bytes + tail, |bytes|) == Some(Step(bytes, tail))
  {
    assert (bytes + tail)[..|bytes|] == bytes;
    assert (bytes + tail)[|bytes|..] == tail;
  }

  lemma {:induction false} ItemsReadBack(shape: Shape, items: seq<Item>, tail: seq<byte>)
    requires AllFit(shape, items)
    ensures TakeItems(Some(shape), |items|, Concat(shape, items) + tail) == Some(Step(Array(items), tail))
  {
    ItemsRoundTrip(shape, items);
    TakeWritten(Concat(shape, items), tail);
  }

  /** Member `k` is read back exactly if its count or selector suits it. */
  ghost predicate ReadsMember(structs: Structs, fields: seq<Field>, slots: seq<Slot>, values: seq<Value>, k: nat,
                              known: map<string, int>, tail: seq<byte>)
    requires Acyclic(structs) && k < |fields| == |slots| && Conforms(slots, values) && Holds(slots[k], values)
  {
    var read := ReadMember(structs, fields[k].ty, known, SlotBytes(slots[k], values) + tail);
    if Suits(fields, slots, values, k) then read == Some(Step(ArgOf(slots[k], values), tail))
    else read.None? || read.value.value != ArgOf(slots[k], values)
  }

  lemma {:induction false} CountedReadsBack(structs: Structs, fields: seq<Field>, slots: seq<Slot>,
                                            values: seq<Value>, k: nat, known: map<string, int>, tail: seq<byte>)
    requires Acyclic(structs) && ValidLayout(structs, fields) && Plans(structs, fields, Params, slots)
    requires Conforms(slots, values) && WithinCapacity(slots, values)
    requires k < |fields| && fields[k].ty.CountedField?
    requires KnowsFirst(fields, slots, values, k, known)
    ensures Holds(slots[k], values)
    ensures ReadsMember(structs, fields, slots, values, k, known, tail)
  {
    var ty, slot := fields[k].ty, slots[k];
    assert PlanMember(structs, fields, k, Params) == Some(slot);
    assert Holds(slot, values);
    ReferenceIsEarlier(structs, fields, k);
    var p := Position(fields, ty.Reference().value).value;
    IntegerHeld(structs, fields, slots, values, p);
    hide ValidLayout, Plans, WithinCapacity, Position, StructWidth, Split, Concat, Power;
    ItemsReadBack(slot.shape, values[slot.field].items, tail);
  }

  lemma {:induction false} UnionReadsBack(structs: Structs, fields: seq<Field>, slots: seq<Slot>, values: seq<Value>,
                                          k: nat, known: map<string, int>, tail: seq<byte>)
    requires Acyclic(structs) && ValidLayout(structs, fields) && Plans(structs, fields, Params, slots)
    requires Conforms(slots, values) && WithinCapacity(slots, values)
    requires k < |fields| && fields[k].ty.UnionField?
    requires KnowsFirst(fields, slots, values, k, known)
    ensures Holds(slots[k], values)
    ensures ReadsMember(structs, fields, slots, values, k, known, tail)
  {
    var ty, slot := fields[k].ty, slots[k];
    assert PlanMember(structs, fields, k, Params) == Some(slot);
    assert Holds(slot, values);
    ReferenceIsEarlier(structs, fields, k);
    var p := Position(fields, ty.Reference().value).value;
    IntegerHeld(structs, fields, slots, values, p);
    hide ValidLayout, Plans, WithinCapacity, Position, StructWidth, Split, Concat, Power;
    TakeWritten(SlotBytes(slot, values), tail);
  }

  lemma {:induction false} FixedReadsBack(structs: Structs, fields: seq<Field>, slots: seq<Slot>, values: seq<Value>,
                                          k: nat, known: map<string, int>, tail: seq<byte>)
    requires Acyclic(structs) && ValidLayout(structs, fields) && Plans(structs, fields, Params, slots)
    requires Conforms(slots, values) && WithinCapacity(slots, values)
    requires k < |fields| && !fields[k].ty.OptionalField? && fields[k].ty.Reference().None?
    requires KnowsFirst(fields, slots, values, k, known)
    ensures Holds(slots[k], values)
    ensures ReadsMember(structs, fields, slots, values, k, known, tail)
  {
    var ty, slot := fields[k].ty, slots[k];
    assert PlanMember(structs, fields, k, Params) == Some(slot);
    assert Holds(slot, values);
    hide ValidLayout, Plans, WithinCapacity, Position, StructWidth, Split, Concat, Power;
    match ty {
      case ScalarField(scalar) =>
        IntegerHeld(structs, fields, slots, values, k);
        ScalarRoundTrips(scalar, ArgOf(slot, values).n);
        TakeWritten(SlotBytes(slot, values), tail);
      case StructField(name) =>
        TakeWritten(SlotBytes(slot, values), tail);
      case ArrayField(element, len) =>
        ItemsReadBack(slot.shape, values[slot.field].items, tail);
      case _ =>
    }
  }

  lemma {:induction false} MemberReadsBack(structs: Structs, fields: seq<Field>, slots: seq<Slot>,
                                           values: seq<Value>, k: nat, known: map<string, int>, tail: seq<byte>)
    requires Acyclic(structs) && ValidLayout(structs, fields) && Plans(structs, fields, Params, slots)
    requires Conforms(slots, values) && WithinCapacity(slots, values)
    requires k < |fields| && !fields[k].ty.OptionalField?
    requires KnowsFirst(fields, slots, values, k, known)
    ensures Holds(slots[k], values)
    ensures ReadsMember(structs, fields, slots, values, k, known, tail)
  {
    hide ReadsMember, ValidLayout, Plans, WithinCapacity, Conforms, KnowsFirst, Acyclic, Holds;
    match fields[k].ty {
      case CountedField(_, _, _) => CountedReadsBack(structs, fields, slots, values, k, known, tail);
      case UnionField(_, _) => UnionReadsBack(structs, fields, slots, values, k, known, tail);
      case _ => FixedReadsBack(structs, fields, slots, values, k, known, tail);
    }
  }

  // ----- every member

  /** The integer members known after reading the first `k` members as they were written. */
  ghost function KnownAt(fields: seq<Field>, slots: seq<Slot>, values: seq<Value>, k: nat): map<string, int>
    requires |slots| == |fields| && Conforms(slots, values) && k <= |fields|
  {
    if k == 0 then map[] else
    assert Holds(slots[k - 1], values);
    Learn(KnownAt(fields, slots, values, k - 1), fields[k - 1], ArgOf(slots[k - 1], values))
  }

  lemma {:induction false} NewName(structs: Structs, fields: seq<Field>, k: nat)
    requires Acyclic(structs) && ValidLayout(structs, fields) && k < |fields|
    ensures forall i | 0 <= i < k :: fields[i].name != fields[k].name
  {
    assert ValidMember(structs, fields, k);
  }

  lemma {:induction false} WrittenInteger(structs: Structs, fields: seq<Field>, slots: seq<Slot>, values: seq<Value>,
                                          k: nat)
    requires Acyclic(structs) && ValidLayout(structs, fields) && Plans(structs, fields, Params, slots)
    requires Conforms(slots, values) && WithinCapacity(slots, values) && k < |fields|
    ensures |slots| == |fields| && Holds(slots[k], values)
    ensures fields[k].ty.ScalarField? ==> ArgOf(slots[k], values).Integral?
    ensures KnownAt(fields, slots, values, k + 1) ==
            Learn(KnownAt(fields, slots, values, k), fields[k], ArgOf(slots[k], values))
  {
    assert Holds(slots[k], values);
    if fields[k].ty.ScalarField? {
      IntegerHeld(structs, fields, slots, values, k);
    }
    hide Plans, ValidLayout, WithinCapacity;
  }

  lemma {:induction false} KnowsNothing(fields: seq<Field>, slots: seq<Slot>, values: seq<Value>)
    requires |slots| == |fields| && Conforms(slots, values)
    ensures KnowsFirst(fields, slots, values, 0, KnownAt(fields, slots, values, 0))
  {
  }

  lemma {:induction false} KnowsWritten(structs: Structs, fields: seq<Field>, slots: seq<Slot>, values: seq<Value>,
                                        k: nat)
    requires Acyclic(structs) && ValidLayout(structs, fields) && Plans(structs, fields, Params, slots)
    requires Conforms(slots, values) && WithinCapacity(slots, values) && k <= |fields| == |slots|
    ensures KnowsFirst(fields, slots, values, k, KnownAt(fields, slots, values, k))
  {
    hide *;
    if k == 0 {
      KnowsNothing(fields, slots, values);
    } else {
      KnowsWritten(structs, fields, slots, values, k - 1);
      WrittenInteger(structs, fields, slots, values, k - 1);
      NewName(structs, fields, k - 1);
      KnowsOneMore(fields, slots, values, k - 1, KnownAt(fields, slots, values, k - 1));
    }
  }

  lemma {:induction false} KnowsOneMore(fields: seq<Field>, slots: seq<Slot>, values: seq<Value>, k: nat,
                                        known: map<string, int>)
    requires |slots| == |fields| && k < |fields| && Conforms(slots, values) && Holds(slots[k], values)
    requires KnowsFirst(fields, slots, values, k, known)
    requires forall i | 0 <= i < k :: fields[i].name != fields[k].name
    requires fields[k].ty.ScalarField? ==> ArgOf(slots[k], values).Integral?
    ensures KnowsFirst(fields, slots, values, k + 1, Learn(known, fields[k], ArgOf(slots[k], values)))
  {
  }

  /** The members from the `k`th are read back, with no byte left. */
  ghost predicate BackFrom(structs: Structs, fields: seq<Field>, slots: seq<Slot>, values: seq<Value>, k: nat)
    requires Acyclic(structs) && |slots| == |fields| && Conforms(slots, values) && k <= |fields|
  {
    ReadFrom(structs, fields, k, KnownAt(fields, slots, values, k), EncodeFrom(slots, values, k))
    == Some(Step(ArgsFrom(slots, values, k), []))
  }

  lemma {:induction false} BackOneMore(structs: Structs, fields: seq<Field>, slots: seq<Slot>, values: seq<Value>,
                                       k: nat)
    requires Acyclic(structs) && |slots| == |fields| && Conforms(slots, values) && k < |fields|
    requires Holds(slots[k], values)
    ensures var tail, arg := EncodeFrom(slots, values, k + 1), ArgOf(slots[k], values);
            var first := ReadMember(structs, fields[k].ty, KnownAt(fields, slots, values, k), SlotBytes(slots[k], values) + tail);
            && (first == Some(Step(arg, tail)) ==>
                  (BackFrom(structs, fields, slots, values, k) <==> BackFrom(structs, fields, slots, values, k + 1)))
            && (first.None? || first.value.value != arg ==> !BackFrom(structs, fields, slots, values, k))
  {
    var arg, known := ArgOf(slots[k], values), KnownAt(fields, slots, values, k);
    var first := ReadMember(structs, fields[k].ty, known, EncodeFrom(slots, values, k));
    if first.Some? {
      var others := ReadFrom(structs, fields, k + 1, Learn(known, fields[k], first.value.value), first.value.rest);
      if others.Some? {
        HeadAndTail(first.value.value, others.value.value, arg, ArgsFrom(slots, values, k + 1));
      }
    }
  }

  lemma {:induction false} HeadAndTail(a: Arg, left: seq<Arg>, b: Arg, right: seq<Arg>)
    ensures [a] + left == [b] + right <==> a == b && left == right
  {
    assert ([a] + left)[0] == a && ([a] + left)[1..] == left;
    assert ([b] + right)[0] == b && ([b] + right)[1..] == right;
  }

  lemma {:induction false} BackIfSuited(structs: Structs, fields: seq<Field>, slots: seq<Slot>, values: seq<Value>,
                                        k: nat)
    requires Acyclic(structs) && ValidLayout(structs, fields) && Plans(structs, fields, Params, slots)
    requires Conforms(slots, values) && WithinCapacity(slots, values)
    requires k < |fields| && !fields[k].ty.OptionalField?
    ensures BackFrom(structs, fields, slots, values, k) <==>
            Suits(fields, slots, values, k) && BackFrom(structs, fields, slots, values, k + 1)
  {
    KnowsWritten(structs, fields, slots, values, k);
    var tail := EncodeFrom(slots, values, k + 1);
    MemberReadsBack(structs, fields, slots, values, k, KnownAt(fields, slots, values, k), tail);
    BackOneMore(structs, fields, slots, values, k);
    hide *;
  }

  lemma {:induction false} BackIfAllSuited(structs: Structs, fields: seq<Field>, slots: seq<Slot>,
                                           values: seq<Value>, k: nat)
    requires Acyclic(structs) && |slots| == |fields| && Conforms(slots, values) && k <= |fields|
    requires BackFrom(structs, fields, slots, values, |fields|)
    requires forall i | 0 <= i < |fields| ::
               BackFrom(structs, fields, slots, values, i) <==>
               Suits(fields, slots, values, i) && BackFrom(structs, fields, slots, values, i + 1)
    ensures BackFrom(structs, fields, slots, values, k) <==>
            forall j | k <= j < |fields| :: Suits(fields, slots, values, j)
    decreases |fields| - k
  {
    hide *;
    if k < |fields| {
      BackIfAllSuited(structs, fields, slots, values, k + 1);
    }
  }

  /** For every valid layout without optional members and every value the constructor
      accepts: the direct call reads exactly the arguments written and nothing is left,
      if and only if each count and selector suits every member naming it. */
  lemma {:induction false} ReadsBack(structs: Structs, fields: seq<Field>, slots: seq<Slot>, values: seq<Value>)
    requires Acyclic(structs) && ValidLayout(structs, fields)
    requires PlanOf(structs, fields, Params) == Some(slots)
    requires Accepts(slots, values)
    requires forall j | 0 <= j < |fields| :: !fields[j].ty.OptionalField?
    ensures |slots| == |fields|
    ensures ReadFrom(structs, fields, 0, map[], Encode(slots, values)) == Some(Step(ArgsFrom(slots, values, 0), []))
            <==> forall j | 0 <= j < |fields| :: Suits(fields, slots, values, j)
  {
    PlanAt(structs, fields, Params);
    forall i | 0 <= i < |fields|
      ensures BackFrom(structs, fields, slots, values, i) <==>
              Suits(fields, slots, values, i) && BackFrom(structs, fields, slots, values, i + 1)
    {
      BackIfSuited(structs, fields, slots, values, i);
    }
    BackIfAllSuited(structs, fields, slots, values, 0);
  }

  /** With one dependent each, counts and selectors always suit: the constructor alone
      decides what the call can pass. */
  lemma {:induction false} OneDependentSuits(structs: Structs, fields: seq<Field>, slots: seq<Slot>,
                                             values: seq<Value>, j: nat)
    requires Acyclic(structs) && ValidLayout(structs, fields)
    requires PlanOf(structs, fields, Params) == Some(slots)
    requires Accepts(slots, values) && OneDependentEach(fields) && j < |fields|
    ensures |slots| == |fields| && Suits(fields, slots, values, j)
  {
    PlanAt(structs, fields, Params);
    if fields[j].ty.Reference().Some? {
      var name := fields[j].ty.Reference().value;
      ReferenceIsEarlier(structs, fields, j);
      var p := Position(fields, name).value;
      assert Dependent(fields, name) == Some(j);
      assert PlanMember(structs, fields, p, Params) == Some(slots[p]);
      assert PlanMember(structs, fields, j, Params) == Some(slots[j]);
      assert Holds(slots[p], values) && Holds(slots[j], values);
    }
  }

  /** The generated call's parameters: encoded into a buffer of the envelope's size, which
      always suffices, and read back. */
  method PassParameters(structs: Structs, fields: seq<Field>, slots: seq<Slot>, values: seq<Value>)
    returns (args: Option<seq<Arg>>)
    requires Acyclic(structs) && ValidLayout(structs, fields)
    requires PlanOf(structs, fields, Params) == Some(slots)
    requires Accepts(slots, values)
    requires forall j | 0 <= j < |fields| :: !fields[j].ty.OptionalField?
    ensures |slots| == |fields|
    ensures args == Some(ArgsFrom(slots, values, 0)) <==> forall j | 0 <= j < |fields| :: Suits(fields, slots, values, j)
    ensures OneDependentEach(fields) ==> args == Some(ArgsFrom(slots, values, 0))
  {
    EnvelopeSound(structs, fields, slots, values);
    ReadsBack(structs, fields, slots, values);
    if OneDependentEach(fields) {
      forall j | 0 <= j < |fields| ensures Suits(fields, slots, values, j) {
        OneDependentSuits(structs, fields, slots, values, j);
      }
    }
    var buffer := new byte[Bounds(structs, fields).max];
    var reader := NewReader(buffer, slots, values);
    args := ReadArguments(structs, fields, reader);
  }

  /** Two buffers sharing a count, which the catalog accepts. */
  function SharedCount(): seq<Field> {
    [Field("Length", ScalarField(U8)),
     Field("First", CountedField(IntegerElement(U8), "Length", 2)),
     Field("Second_Buffer", CountedField(IntegerElement(U8), "Length", 2))]
  }

  function SharedCountSlots(): seq<Slot> {
    [Count(0, U8), Elements(0, Integer(U8), 2), Elements(1, Integer(U8), 2)]
  }

  function UnequalBuffers(): seq<Value> {
    [Many([Number(7)]), Many([Number(8), Number(9)])]
  }

  lemma {:induction false} SharedCountValid()
    ensures Acyclic(map[]) && ValidLayout(map[], SharedCount())
  {
    var fields := SharedCount();
    assert Ranks(map[], map[]);
    assert fields[0].name == "Length";
    assert EarlierUnsigned(fields, 1, "Length") && EarlierUnsigned(fields, 2, "Length");
  }

  lemma {:induction false} SharedCountPlanned()
    ensures Acyclic(map[]) && PlanOf(map[], SharedCount(), Params) == Some(SharedCountSlots())
  {
    var fields, slots := SharedCount(), SharedCountSlots();
    PowersOfTheScalars();
    SharedCountValid();
    assert Dependent(fields, "Length") == Some(1);
    assert Dependent(fields, "First") == None && Dependent(fields, "Second_Buffer") == None;
    assert Position(fields, "Length") == Some(0);
    assert FieldOf(fields, 1) == 0 && FieldOf(fields, 2) == 1;
    hide ValidLayout;
    assert forall j | 0 <= j < 3 :: PlanMember(map[], fields, j, Params) == Some(slots[j]);
    assert PlanOf(map[], fields, Params).value == slots;
  }

  lemma {:induction false} SharedCountAccepted()
    ensures Conforms(SharedCountSlots(), UnequalBuffers())
    ensures Accepts(SharedCountSlots(), UnequalBuffers())
  {
    var slots, values := SharedCountSlots(), UnequalBuffers();
    PowersOfTheScalars();
    assert Conforms(slots, values);
    assert SizeFrom(slots, values, 2) == 2;
  }

  lemma {:induction false} SharedCountUnsuited()
    requires Conforms(SharedCountSlots(), UnequalBuffers())
    ensures !Suits(SharedCount(), SharedCountSlots(), UnequalBuffers(), 2)
  {
    assert Position(SharedCount(), "Length") == Some(0);
  }

  /** The count is written from the first buffer's length, so an accepted value whose
      second buffer is longer is not read back. */
  lemma {:induction false} SharedCountMisread()
    ensures Acyclic(map[]) && ValidLayout(map[], SharedCount())
    ensures PlanOf(map[], SharedCount(), Params) == Some(SharedCountSlots())
    ensures Accepts(SharedCountSlots(), UnequalBuffers())
    ensures ReadFrom(map[], SharedCount(), 0, map[], Encode(SharedCountSlots(), UnequalBuffers()))
            != Some(Step(ArgsFrom(SharedCountSlots(), UnequalBuffers(), 0), []))
  {
    assert |SharedCount()| == 3 && forall j | 0 <= j < 3 :: !SharedCount()[j].ty.OptionalField?;
    hide *;
    SharedCountValid();
    SharedCountPlanned();
    SharedCountAccepted();
    SharedCountUnsuited();
    ReadsBack(map[], SharedCount(), SharedCountSlots(), UnequalBuffers());
  }
}

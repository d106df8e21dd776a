/** The return parameters of a direct call: what the stack function writes through its
    pointers is encoded again, and decoded as the declared return value
    (crates/stm32wb-hci/src/direct.rs, crates/stm32wb-hci-macros/src/direct.rs). */
module DirectReturns {
  import opened Options
  import opened Bytes
  import opened Layout
  import opened Plan
  import opened Encoder
  import opened RoundTrip
  import opened Returns
  import opened ReturnStream

  // ----- the writer

  class Writer {
    const buffer: array<byte>
    var len: nat

    ghost predicate Valid()
      reads this
    {
      len <= buffer.Length
    }

    function Written(): seq<byte>
      requires Valid()
      reads this, buffer
    {
      buffer[..len]
    }

    constructor (buffer: array<byte>)
      ensures Valid() && this.buffer == buffer && Written() == []
    {
      this.buffer, this.len := buffer, 0;
    }

    /** Add bytes, unless they do not fit. */
    method Put(bytes: seq<byte>) returns (ok: bool)
      requires Valid()
      modifies this`len, buffer
      ensures Valid()
      ensures ok <==> |old(Written())| + |bytes| <= buffer.Length
      ensures Written() == if ok then old(Written()) + bytes else old(Written())
    {
      if len + |bytes| > buffer.Length {
        return false;
      }
      forall i | 0 <= i < |bytes| {
        buffer[len + i] := bytes[i];
      }
      len := len + |bytes|;
      return true;
    }
  }

  // ----- what the stack function writes

  /** What an output pointer receives: an integer, a structure, or a buffer's elements. */
  datatype Output = IntegerOut(n: int) | BytesOut(bytes: seq<byte>) | ItemsOut(items: seq<Item>)

  /** The C type of a return parameter holds the output: buffers have room for their capacity. */
  ghost predicate Typed(structs: Structs, ty: FieldType, out: Output)
    requires Acyclic(structs)
  {
    match ty
    case ScalarField(scalar) => out.IntegerOut? && scalar.Holds(out.n)
    case StructField(name) => out.BytesOut? && StructWidth(structs, name) == Some(|out.bytes|)
    case ArrayField(element, len) =>
      out.ItemsOut? && |out.items| == len && ShapeOf(structs, element).Some? && AllFit(ShapeOf(structs, element).value, out.items)
    case CountedField(element, _, capacity) =>
      out.ItemsOut? && |out.items| == capacity && ShapeOf(structs, element).Some? && AllFit(ShapeOf(structs, element).value, out.items)
    case _ => false
  }

  ghost predicate AllTyped(structs: Structs, fields: seq<Field>, outs: seq<Output>)
    requires Acyclic(structs)
  {
    |outs| == |fields| && forall k | 0 <= k < |fields| :: Typed(structs, fields[k].ty, outs[k])
  }

  /** The integer the stack wrote for the count of the `k`th member. */
  function CountOut(fields: seq<Field>, outs: seq<Output>, k: nat): int
    requires k < |fields| == |outs|
  {
    var p := if fields[k].ty.CountedField? then Position(fields, fields[k].ty.count) else None;
    if p.Some? && outs[p.value].IntegerOut? then outs[p.value].n else 0
  }

  /** `d::count` accepts the count of the `k`th member, if it has one. */
  predicate CountFits(fields: seq<Field>, outs: seq<Output>, k: nat)
    requires k < |fields| == |outs|
  {
    fields[k].ty.CountedField? ==> 0 <= CountOut(fields, outs, k) <= fields[k].ty.capacity
  }

  /** The bytes put for the `k`th member. */
  function Piece(structs: Structs, fields: seq<Field>, outs: seq<Output>, k: nat): seq<byte>
    requires Acyclic(structs) && k < |fields| == |outs|
  {
    match (fields[k].ty, outs[k])
    case (ScalarField(scalar), IntegerOut(n)) => scalar.Encode(n)
    case (StructField(_), BytesOut(bytes)) => bytes
    case (ArrayField(element, _), ItemsOut(items)) =>
      if ShapeOf(structs, element).Some? then Concat(ShapeOf(structs, element).value, items) else []
    case (CountedField(element, _, _), ItemsOut(items)) =>
      var n := CountOut(fields, outs, k);
      if ShapeOf(structs, element).Some? && 0 <= n <= |items| then Concat(ShapeOf(structs, element).value, items[..n]) else []
    case _ => []
  }

  /** The value of the `k`th member: the elements its count names. */
  function ValueOut(fields: seq<Field>, outs: seq<Output>, k: nat): Value
    requires k < |fields| == |outs|
  {
    match outs[k]
    case IntegerOut(n) => One(Number(n))
    case BytesOut(bytes) => One(Packed(bytes))
    case ItemsOut(items) =>
      var n := CountOut(fields, outs, k);
      Many(if fields[k].ty.CountedField? && 0 <= n <= |items| then items[..n] else items)
  }

  /** What the stack wrote for the first `k` members, as declared: counts are not. */
  function StackWrote(fields: seq<Field>, outs: seq<Output>, k: nat): (values: seq<Value>)
    requires k <= |fields| == |outs|
    ensures |values| == FieldOf(fields, k)
  {
    if k == 0 then [] else
    StackWrote(fields, outs, k - 1) + if Derived(fields, k - 1) then [] else [ValueOut(fields, outs, k - 1)]
  }

  lemma {:induction false} WroteAt(fields: seq<Field>, outs: seq<Output>, j: nat, k: nat)
    requires j < k <= |fields| == |outs| && !Derived(fields, j)
    ensures FieldOf(fields, j) < |StackWrote(fields, outs, k)|
    ensures StackWrote(fields, outs, k)[FieldOf(fields, j)] == ValueOut(fields, outs, j)
    decreases k
  {
    if j < k - 1 {
      WroteAt(fields, outs, j, k - 1);
    }
  }

  // ----- the pieces are the encoding

  ghost predicate Returned(structs: Structs, fields: seq<Field>, slots: seq<Slot>, outs: seq<Output>) {
    && Acyclic(structs) && ValidLayout(structs, fields) && OneDependentEach(fields)
    && Plans(structs, fields, Side.Returns, slots) && AllTyped(structs, fields, outs)
    && |slots| == |fields| == |outs|
  }

  predicate InCapacity(slot: Slot, values: seq<Value>) {
    slot.Elements? ==>
      slot.field < |values| && values[slot.field].Many? && |values[slot.field].items| <= slot.capacity
  }

  ghost predicate CountsFit(fields: seq<Field>, outs: seq<Output>)
    requires |fields| == |outs|
  {
    forall k | 0 <= k < |fields| :: CountFits(fields, outs, k)
  }

  lemma {:induction false} PieceOfField(structs: Structs, fields: seq<Field>, slots: seq<Slot>, outs: seq<Output>,
                                        k: nat)
    requires Returned(structs, fields, slots, outs) && k < |fields| && CountFits(fields, outs, k) && !Derived(fields, k)
    ensures var values := StackWrote(fields, outs, |fields|);
            Holds(slots[k], values) && SlotBytes(slots[k], values) == Piece(structs, fields, outs, k)
    ensures InCapacity(slots[k], StackWrote(fields, outs, |fields|))
  {
    hide OneDependentEach, ValidLayout, StructWidth, Concat, Dependent, FieldOf;
    assert PlanMember(structs, fields, k, Side.Returns) == Some(slots[k]);
    assert Typed(structs, fields[k].ty, outs[k]);
    WroteAt(fields, outs, k, |fields|);
    hide StackWrote;
  }

  lemma {:induction false} PieceOfCount(structs: Structs, fields: seq<Field>, slots: seq<Slot>, outs: seq<Output>,
                                        k: nat)
    requires Returned(structs, fields, slots, outs) && k < |fields| && CountsFit(fields, outs) && Derived(fields, k)
    ensures var values := StackWrote(fields, outs, |fields|);
            Holds(slots[k], values) && SlotBytes(slots[k], values) == Piece(structs, fields, outs, k)
  {
    hide OneDependentEach, ValidLayout, StructWidth, Concat, FieldOf;
    PlannedPlaced(structs, fields, slots, k);
    var d := PlannedBuffer(structs, fields, slots, k);
    NamedAt(structs, fields, k);
    assert PlanMember(structs, fields, k, Side.Returns) == Some(slots[k]);
    assert PlanMember(structs, fields, d, Side.Returns) == Some(slots[d]);
    assert Typed(structs, fields[d].ty, outs[d]) && Typed(structs, fields[k].ty, outs[k]);
    assert CountFits(fields, outs, d);
    assert CountOut(fields, outs, d) == outs[k].n;
    WroteAt(fields, outs, d, |fields|);
    hide StackWrote;
  }

  lemma {:induction false} PieceIsSlot(structs: Structs, fields: seq<Field>, slots: seq<Slot>, outs: seq<Output>,
                                       k: nat)
    requires Returned(structs, fields, slots, outs) && k < |fields| && CountsFit(fields, outs)
    ensures var values := StackWrote(fields, outs, |fields|);
            Holds(slots[k], values) && SlotBytes(slots[k], values) == Piece(structs, fields, outs, k)
    ensures InCapacity(slots[k], StackWrote(fields, outs, |fields|))
  {
    hide Plans, ValidLayout, OneDependentEach, AllTyped, Holds, SlotBytes, StackWrote, Piece;
    PlannedPlaced(structs, fields, slots, k);
    if Derived(fields, k) {
      PieceOfCount(structs, fields, slots, outs, k);
    } else {
      assert CountFits(fields, outs, k);
      PieceOfField(structs, fields, slots, outs, k);
    }
  }

  lemma {:induction false} WroteFills(structs: Structs, fields: seq<Field>, slots: seq<Slot>, outs: seq<Output>)
    requires Returned(structs, fields, slots, outs) && CountsFit(fields, outs)
    ensures Fills(slots, StackWrote(fields, outs, |fields|))
  {
    hide Plans, ValidLayout, OneDependentEach, AllTyped, Holds, SlotBytes, StackWrote, Piece, CountsFit;
    FieldsAgree(structs, fields, slots, |fields|);
    forall k | 0 <= k < |slots|
      ensures Holds(slots[k], StackWrote(fields, outs, |fields|))
      ensures InCapacity(slots[k], StackWrote(fields, outs, |fields|))
    {
      PieceIsSlot(structs, fields, slots, outs, k);
    }
  }

  lemma {:induction false} Planned(structs: Structs, fields: seq<Field>, slots: seq<Slot>, outs: seq<Output>)
    requires Returned(structs, fields, slots, outs)
    ensures |slots| == |fields| == |outs| && Acyclic(structs) && Decodable(slots)
  {
    var plan := PlanOf(structs, fields, Side.Returns);
    assert plan.Some?;
    PlanAt(structs, fields, Side.Returns);
    assert plan.value == slots by {
      forall j | 0 <= j < |slots| ensures plan.value[j] == slots[j] {
        assert PlanMember(structs, fields, j, Side.Returns) == Some(slots[j]);
      }
    }
    hide PlanOf, Plans, ValidLayout, OneDependentEach;
    PlannedDecodable(structs, fields, slots);
  }

  /** `MAX_LEN` is the envelope's maximum, the size of the writer's buffer. */
  lemma {:induction false} MaxLenIsEnvelope(structs: Structs, fields: seq<Field>, slots: seq<Slot>, k: nat)
    requires Acyclic(structs) && ValidLayout(structs, fields) && Plans(structs, fields, Side.Returns, slots)
    requires k <= |fields| == |slots|
    ensures MaxLen(slots, k) == BoundsFrom(structs, fields, k).max
    decreases |fields| - k
  {
    if k < |fields| {
      MaxLenIsEnvelope(structs, fields, slots, k + 1);
      SlotWidest(structs, fields, slots, k);
      hide Plans, ValidLayout, MaxLength, MaxWidth;
    }
  }

  lemma {:induction false} SlotWidest(structs: Structs, fields: seq<Field>, slots: seq<Slot>, k: nat)
    requires Acyclic(structs) && ValidLayout(structs, fields) && Plans(structs, fields, Side.Returns, slots)
    requires k < |fields| == |slots|
    ensures MaxLength(slots[k]) == MaxWidth(structs, fields[k].ty)
  {
    hide StructWidth, Dependent, FieldOf;
    assert ValidMember(structs, fields, k);
    assert PlanMember(structs, fields, k, Side.Returns) == Some(slots[k]);
    PlannedPlaced(structs, fields, slots, k);
  }

  lemma {:induction false} PieceFits(structs: Structs, fields: seq<Field>, slots: seq<Slot>, outs: seq<Output>,
                                     k: nat, written: seq<byte>)
    requires Returned(structs, fields, slots, outs) && k < |fields| == |slots| && CountsFit(fields, outs)
    requires var values := StackWrote(fields, outs, |fields|);
             Conforms(slots, values) && written + EncodeFrom(slots, values, k) == Encode(slots, values)
    ensures var values := StackWrote(fields, outs, |fields|);
            && (written + Piece(structs, fields, outs, k)) + EncodeFrom(slots, values, k + 1) == Encode(slots, values)
            && |written| + |Piece(structs, fields, outs, k)| <= Bounds(structs, fields).max
  {
    hide Plans, ValidLayout, OneDependentEach, AllTyped, Holds, SlotBytes, StackWrote, Piece, CountsFit, Conforms;
    var values := StackWrote(fields, outs, |fields|);
    PieceIsSlot(structs, fields, slots, outs, k);
    EncodeStep(slots, values, k, written);
    WroteFills(structs, fields, slots, outs);
    Planned(structs, fields, slots, outs);
    EncodesWithinMaxLen(slots, values, 0);
    MaxLenIsEnvelope(structs, fields, slots, 0);
  }

  // ----- what is put and decoded

  /** The bytes put for the `k`th member: an echoed one's are those of its parameter. */
  function PutFor(structs: Structs, fields: seq<Field>, echoes: map<string, seq<byte>>, outs: seq<Output>, k: nat): seq<byte>
    requires Acyclic(structs) && k < |fields| == |outs|
  {
    if fields[k].name in echoes then echoes[fields[k].name] else Piece(structs, fields, outs, k)
  }

  function PutUpTo(structs: Structs, fields: seq<Field>, echoes: map<string, seq<byte>>, outs: seq<Output>, k: nat): seq<byte>
    requires Acyclic(structs) && k <= |fields| == |outs|
  {
    if k == 0 then [] else PutUpTo(structs, fields, echoes, outs, k - 1) + PutFor(structs, fields, echoes, outs, k - 1)
  }

  /** Counts are checked against the capacities of the buffers the stack wrote. */
  predicate CountsChecked(fields: seq<Field>, echoes: map<string, seq<byte>>, outs: seq<Output>, n: nat)
    requires n <= |fields| == |outs|
  {
    forall k | 0 <= k < n && fields[k].name !in echoes :: CountFits(fields, outs, k)
  }

  /** The return value: everything put, if it fits the envelope, decoded without a rest. */
  function Collected(structs: Structs, fields: seq<Field>, slots: seq<Slot>, echoes: map<string, seq<byte>>,
                     outs: seq<Output>): Option<seq<Value>>
    requires Acyclic(structs) && |fields| == |outs|
  {
    var put := PutUpTo(structs, fields, echoes, outs, |fields|);
    var decoded := Decode(slots, put);
    if CountsChecked(fields, echoes, outs, |fields|) && |put| <= Bounds(structs, fields).max
       && decoded.Some? && decoded.value.rest == []
    then Some(decoded.value.value)
    else None
  }

  lemma {:induction false} PutGrows(structs: Structs, fields: seq<Field>, echoes: map<string, seq<byte>>, outs: seq<Output>,
                                    j: nat, k: nat)
    requires Acyclic(structs) && j <= k <= |fields| == |outs|
    ensures |PutUpTo(structs, fields, echoes, outs, j)| <= |PutUpTo(structs, fields, echoes, outs, k)|
  {
    hide *;
    if j < k {
      PutGrows(structs, fields, echoes, outs, j, k - 1);
      OnePut(structs, fields, echoes, outs, k - 1);
    }
  }

  /** Everything after the stack function returned success: put every return parameter, an
      echoed one from the parameter's own bytes, and decode them, whatever those bytes are. */
  method CollectReturns(structs: Structs, fields: seq<Field>, slots: seq<Slot>, echoes: map<string, seq<byte>>,
                        outs: seq<Output>)
    returns (result: Option<seq<Value>>)
    requires Acyclic(structs) && ValidLayout(structs, fields) && |fields| == |outs|
    ensures result == Collected(structs, fields, slots, echoes, outs)
  {
    hide ValidLayout, Piece, PutFor, PutUpTo, CountOut, Decode, Decodable, Bounds, Acyclic;
    var envelope := ComputeEnvelope(structs, fields);
    var buffer := new byte[envelope.value.max](_ => 0);
    var writer := new Writer(buffer);
    NothingPut(structs, fields, echoes, outs);
    for k := 0 to |fields|
      invariant writer.Valid() && fresh(writer) && fresh(buffer) && writer.buffer == buffer
      invariant CountsChecked(fields, echoes, outs, k)
      invariant writer.Written() == PutUpTo(structs, fields, echoes, outs, k)
    {
      var echoed := fields[k].name in echoes;
      if !echoed && fields[k].ty.CountedField? && !CountFits(fields, outs, k) {
        return None;
      }
      OnePut(structs, fields, echoes, outs, k);
      PutGrows(structs, fields, echoes, outs, k + 1, |fields|);
      var piece := if echoed then echoes[fields[k].name] else Piece(structs, fields, outs, k);
      var put := writer.Put(piece);
      if !put {
        return None;
      }
    }
    var decoded := Decode(slots, writer.Written());
    result := if decoded.Some? && decoded.value.rest == [] then Some(decoded.value.value) else None;
  }

  lemma {:induction false} NothingPut(structs: Structs, fields: seq<Field>, echoes: map<string, seq<byte>>, outs: seq<Output>)
    requires Acyclic(structs) && |fields| == |outs|
    ensures PutUpTo(structs, fields, echoes, outs, 0) == []
  {
  }

  lemma {:induction false} OnePut(structs: Structs, fields: seq<Field>, echoes: map<string, seq<byte>>, outs: seq<Output>,
                                  k: nat)
    requires Acyclic(structs) && k < |fields| == |outs|
    ensures PutUpTo(structs, fields, echoes, outs, k + 1) ==
            PutUpTo(structs, fields, echoes, outs, k) + PutFor(structs, fields, echoes, outs, k)
    ensures PutFor(structs, fields, echoes, outs, k) ==
            if fields[k].name in echoes then echoes[fields[k].name] else Piece(structs, fields, outs, k)
  {
  }

  // ----- echoes of the values returned

  /** Every echoed parameter is the return parameter of its name, within its capacity. */
  ghost predicate EchoesReturned(structs: Structs, fields: seq<Field>, echoes: map<string, seq<byte>>, outs: seq<Output>)
    requires Acyclic(structs) && |fields| == |outs|
  {
    forall k | 0 <= k < |fields| && fields[k].name in echoes ::
      CountFits(fields, outs, k) && echoes[fields[k].name] == Piece(structs, fields, outs, k)
  }

  lemma {:induction false} PutIsEncoding(structs: Structs, fields: seq<Field>, slots: seq<Slot>,
                                         echoes: map<string, seq<byte>>, outs: seq<Output>, k: nat)
    requires Returned(structs, fields, slots, outs) && CountsFit(fields, outs) && k <= |fields|
    requires EchoesReturned(structs, fields, echoes, outs)
    ensures var values := StackWrote(fields, outs, |fields|);
            && Conforms(slots, values)
            && PutUpTo(structs, fields, echoes, outs, k) + EncodeFrom(slots, values, k) == Encode(slots, values)
  {
    hide *;
    Sizes(structs, fields, slots, outs);
    if k > 0 {
      PutIsEncoding(structs, fields, slots, echoes, outs, k - 1);
      OnePut(structs, fields, echoes, outs, k - 1);
      PutIsPiece(structs, fields, echoes, outs, k - 1);
      PieceFits(structs, fields, slots, outs, k - 1, PutUpTo(structs, fields, echoes, outs, k - 1));
    } else {
      WroteFills(structs, fields, slots, outs);
      FillsConforms(slots, StackWrote(fields, outs, |fields|));
      NothingPut(structs, fields, echoes, outs);
    }
  }

  lemma {:induction false} PutIsPiece(structs: Structs, fields: seq<Field>, echoes: map<string, seq<byte>>,
                                      outs: seq<Output>, k: nat)
    requires Acyclic(structs) && k < |fields| == |outs| && EchoesReturned(structs, fields, echoes, outs)
    ensures PutFor(structs, fields, echoes, outs, k) == Piece(structs, fields, outs, k)
  {
  }

  lemma {:induction false} Sizes(structs: Structs, fields: seq<Field>, slots: seq<Slot>, outs: seq<Output>)
    requires Returned(structs, fields, slots, outs)
    ensures |slots| == |fields| == |outs| && Acyclic(structs)
  {
  }

  /** The caller gets what the stack wrote, buffers cut to their counts and echoed
      parameters included, unless the stack wrote a count past its buffer's capacity. */
  lemma {:induction false} ReturnsWhatWasWritten(structs: Structs, fields: seq<Field>, slots: seq<Slot>,
                                                 echoes: map<string, seq<byte>>, outs: seq<Output>)
    requires Returned(structs, fields, slots, outs)
    requires EchoesReturned(structs, fields, echoes, outs)
    ensures Collected(structs, fields, slots, echoes, outs) ==
            if CountsFit(fields, outs) then Some(StackWrote(fields, outs, |fields|)) else None
  {
    Planned(structs, fields, slots, outs);
    EchoesFit(structs, fields, echoes, outs);
    if CountsFit(fields, outs) {
      PutIsEncoding(structs, fields, slots, echoes, outs, |fields|);
      WroteFills(structs, fields, slots, outs);
      MaxLenIsEnvelope(structs, fields, slots, 0);
      hide Returned, Conforms, Fills, StackWrote, PutUpTo, Encode, EncodeFrom, Decode, Decodable, CountFits, CountsFit, CountsChecked,
        ValidLayout, Bounds, Acyclic, EchoesReturned;
      var values, put := StackWrote(fields, outs, |fields|), PutUpTo(structs, fields, echoes, outs, |fields|);
      EncodesWithinMaxLen(slots, values, 0);
      NothingMore(slots, values, put);
      DecodesEncoding(slots, values, []);
    }
  }

  /** Checking the counts of what is not echoed checks all of them. */
  lemma {:induction false} EchoesFit(structs: Structs, fields: seq<Field>, echoes: map<string, seq<byte>>,
                                     outs: seq<Output>)
    requires Acyclic(structs) && |fields| == |outs| && EchoesReturned(structs, fields, echoes, outs)
    ensures CountsChecked(fields, echoes, outs, |fields|) <==> CountsFit(fields, outs)
  {
    hide CountFits, Piece, Acyclic;
  }

  lemma {:induction false} FillsConforms(slots: seq<Slot>, values: seq<Value>)
    requires Fills(slots, values)
    ensures Conforms(slots, values) && EncodeFrom(slots, values, 0) == Encode(slots, values)
    ensures [] + Encode(slots, values) == Encode(slots, values)
  {
  }

  lemma {:induction false} NothingMore(slots: seq<Slot>, values: seq<Value>, written: seq<byte>)
    requires Conforms(slots, values) && written + EncodeFrom(slots, values, |slots|) == Encode(slots, values)
    ensures written == Encode(slots, values) + []
  {
  }
}

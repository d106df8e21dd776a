/** The generated return struct: decoding a slice, and reading a stream into a buffer and
    decoding that (crates/stm32wb-hci-macros/src/command.rs). */
module Returns {
  import opened Options
  import opened Bytes
  import opened Layout
  import opened Plan
  import opened Encoder
  import opened Constructor
  import opened DirectCall
  import opened RoundTrip

  /** Slot `p` is the count of the buffer at slot `k`, and can express its capacity. */
  predicate CountsFor(slots: seq<Slot>, p: nat, k: nat)
    requires p < |slots| && k < |slots|
  {
    && slots[p].Count? && slots[k].Elements? && slots[p].counted == slots[k].field
    && !slots[p].scalar.IsSigned() && slots[k].capacity < Power(slots[p].scalar.Width())
  }

  /** Return parameters are fixed or counted, take the declared fields in order, and each
      buffer has a count of its own before it: the generated code names a count after its
      buffer, and does not compile otherwise. */
  predicate Decodable(slots: seq<Slot>) {
    InOrder(slots) && HasCounts(slots) && HasBuffers(slots)
  }

  predicate InOrder(slots: seq<Slot>) {
    forall k | 0 <= k < |slots| :: Placed(slots, k)
  }

  predicate Placed(slots: seq<Slot>, k: nat)
    requires k < |slots|
  {
    && (slots[k].Fixed? || slots[k].FixedArray? || slots[k].Count? || slots[k].Elements?)
    && (!slots[k].Count? ==> FieldIn(slots[k]) == FieldsBefore(slots, k))
  }

  predicate HasCounts(slots: seq<Slot>) {
    forall k | 0 <= k < |slots| && slots[k].Elements? :: exists p | 0 <= p < k :: CountsFor(slots, p, k)
  }

  /** Each count has a buffer after it, which no other count has. */
  predicate HasBuffers(slots: seq<Slot>) {
    && (forall p | 0 <= p < |slots| && slots[p].Count? :: exists k | p < k < |slots| :: CountsFor(slots, p, k))
    && (forall p, q | 0 <= p < q < |slots| && slots[p].Count? && slots[q].Count? ::
          slots[p].counted != slots[q].counted)
  }

  /** How many of the first `k` slots have a field of their own. */
  function FieldsBefore(slots: seq<Slot>, k: nat): nat
    requires k <= |slots|
  {
    if k == 0 then 0 else FieldsBefore(slots, k - 1) + if slots[k - 1].Count? then 0 else 1
  }

  // ----- decoding a slice

  /** The bytes a slot takes, given the counts decoded before it. */
  function Length(slot: Slot, counts: map<nat, nat>): nat {
    match slot
    case Fixed(_, shape) => shape.Width()
    case FixedArray(_, shape, len) => len * shape.Width()
    case Count(_, scalar) => scalar.Width()
    case Elements(f, shape, _) => if f in counts then counts[f] * shape.Width() else 0
    case _ => 0
  }

  function Counted(slot: Slot, counts: map<nat, nat>, bytes: seq<byte>): map<nat, nat> {
    if slot.Count? then counts[slot.counted := FromLe(bytes)] else counts
  }

  /** The declared value in a slot's bytes: none for a count, and a failure past the
      capacity of a bounded array. */
  function Content(slot: Slot, counts: map<nat, nat>, bytes: seq<byte>): Option<seq<Value>>
    requires |bytes| == Length(slot, counts)
  {
    match slot
    case Fixed(_, shape) => Some([One(shape.Decode(bytes))])
    case FixedArray(_, shape, len) => Some([Many(Split(shape, bytes, len))])
    case Count(_, _) => Some([])
    case Elements(f, shape, capacity) =>
      if f in counts && counts[f] <= capacity then Some([Many(Split(shape, bytes, counts[f]))]) else None
    case _ => None
  }

  /** `from_hci_bytes` from the `k`th member. */
  function DecodeFrom(slots: seq<Slot>, k: nat, counts: map<nat, nat>, bytes: seq<byte>): Option<Step<seq<Value>>>
    requires k <= |slots|
    decreases |slots| - k
  {
    if k == |slots| then Some(Step([], bytes)) else
    var len := Length(slots[k], counts);
    if len > |bytes| then None else
    var content := Content(slots[k], counts, bytes[..len]);
    if content.None? then None else
    var others := DecodeFrom(slots, k + 1, Counted(slots[k], counts, bytes[..len]), bytes[len..]);
    if others.None? then None else
    Some(Step(content.value + others.value.value, others.value.rest))
  }

  function Decode(slots: seq<Slot>, bytes: seq<byte>): Option<Step<seq<Value>>> {
    DecodeFrom(slots, 0, map[], bytes)
  }

  // ----- decoding what was encoded

  /** The counts decoded before the `k`th member are the lengths of their buffers. */
  ghost predicate Agree(slots: seq<Slot>, k: nat, counts: map<nat, nat>, values: seq<Value>)
    requires k <= |slots|
  {
    forall p | 0 <= p < k && slots[p].Count? ::
      && slots[p].counted in counts && slots[p].counted < |values| && values[slots[p].counted].Many?
      && counts[slots[p].counted] == |values[slots[p].counted].items|
  }

  /** A value a buffer's count and capacity allow. */
  predicate Fills(slots: seq<Slot>, values: seq<Value>) {
    && |values| == FieldsBefore(slots, |slots|)
    && Conforms(slots, values)
    && WithinCapacity(slots, values)
  }

  lemma {:induction false} FieldsGrow(slots: seq<Slot>, j: nat, k: nat)
    requires j <= k <= |slots|
    ensures FieldsBefore(slots, j) <= FieldsBefore(slots, k)
    decreases k
  {
    if j < k {
      FieldsGrow(slots, j, k - 1);
    }
  }

  lemma {:induction false} CountRoundTrips(scalar: Scalar, n: nat)
    requires n < Power(scalar.Width())
    ensures FromLe(scalar.Encode(n)) == n
  {
    FromToLe(n, scalar.Width());
  }

  lemma {:induction false} ItemsSplit(shape: Shape, items: seq<Item>, n: nat)
    requires AllFit(shape, items) && n == |items|
    ensures |Concat(shape, items)| == n * shape.Width()
    ensures Split(shape, Concat(shape, items), n) == items
  {
    ItemsRoundTrip(shape, items);
  }

  /** A slot's bytes are its length, and decode to its value. */
  lemma {:induction false} SlotDecodes(slots: seq<Slot>, k: nat, counts: map<nat, nat>, values: seq<Value>)
    requires Decodable(slots) && Fills(slots, values) && k < |slots|
    requires Agree(slots, k, counts, values)
    ensures Holds(slots[k], values)
    ensures |SlotBytes(slots[k], values)| == Length(slots[k], counts)
    ensures Content(slots[k], counts, SlotBytes(slots[k], values)) ==
            Some(if slots[k].Count? then [] else [values[FieldIn(slots[k])]])
  {
    hide HasBuffers;
    var slot := slots[k];
    assert Placed(slots, k) && Holds(slot, values);
    if slot.Elements? {
      var p :| 0 <= p < k && CountsFor(slots, p, k);
      assert |values[slot.field].items| <= slot.capacity;
    }
    hide HasCounts, Fills;
    match slot {
      case Fixed(f, shape) =>
        ItemRoundTrips(shape, values[f].item);
      case FixedArray(f, shape, len) =>
        ItemsSplit(shape, values[f].items, len);
      case Elements(f, shape, capacity) =>
        ItemsSplit(shape, values[f].items, counts[f]);
      case Count(f, scalar) =>
    }
  }

  /** After a count, the counts still agree. */
  lemma {:induction false} StillAgree(slots: seq<Slot>, k: nat, counts: map<nat, nat>, values: seq<Value>)
    requires Decodable(slots) && Fills(slots, values) && k < |slots| && Holds(slots[k], values)
    requires Agree(slots, k, counts, values)
    ensures Agree(slots, k + 1, Counted(slots[k], counts, SlotBytes(slots[k], values)), values)
  {
    hide HasCounts, InOrder;
    if slots[k].Count? {
      var b :| k < b < |slots| && CountsFor(slots, k, b);
      assert Holds(slots[b], values) && |values[slots[b].field].items| <= slots[b].capacity;
      hide HasBuffers, Fills;
      CountRoundTrips(slots[k].scalar, |values[slots[k].counted].items|);
    }
  }

  /** The value a slot adds to those of the slots after it. */
  lemma {:induction false} NextField(slots: seq<Slot>, k: nat, values: seq<Value>)
    requires InOrder(slots) && |values| == FieldsBefore(slots, |slots|) && k < |slots|
    ensures FieldsBefore(slots, k) <= FieldsBefore(slots, k + 1) <= |values|
    ensures !slots[k].Count? ==> FieldIn(slots[k]) < |values|
    ensures values[FieldsBefore(slots, k)..] ==
            (if slots[k].Count? then [] else [values[FieldIn(slots[k])]]) + values[FieldsBefore(slots, k + 1)..]
  {
    assert Placed(slots, k);
    FieldsGrow(slots, k + 1, |slots|);
    hide InOrder;
  }

  lemma {:induction false} DecodesFrom(slots: seq<Slot>, k: nat, counts: map<nat, nat>, values: seq<Value>,
                                       tail: seq<byte>)
    requires Decodable(slots) && InOrder(slots) && k <= |slots|
    requires Fills(slots, values) && Conforms(slots, values) && |values| == FieldsBefore(slots, |slots|)
    requires Agree(slots, k, counts, values)
    ensures FieldsBefore(slots, k) <= |values|
    ensures DecodeFrom(slots, k, counts, EncodeFrom(slots, values, k) + tail) ==
            Some(Step(values[FieldsBefore(slots, k)..], tail))
    decreases |slots| - k
  {
    hide *;
    if k == |slots| {
      DecodesEnd(slots, counts, values, tail);
    } else {
      SlotDecodes(slots, k, counts, values);
      StillAgree(slots, k, counts, values);
      NextField(slots, k, values);
      var bytes, rest := SlotBytes(slots[k], values), EncodeFrom(slots, values, k + 1);
      DecodesFrom(slots, k + 1, Counted(slots[k], counts, bytes), values, tail);
      EncodeSplit(slots, values, k, tail);
      DecodeStep(slots, k, counts, bytes, rest + tail);
    }
  }

  lemma {:induction false} DecodesEnd(slots: seq<Slot>, counts: map<nat, nat>, values: seq<Value>, tail: seq<byte>)
    requires Conforms(slots, values)
    ensures DecodeFrom(slots, |slots|, counts, EncodeFrom(slots, values, |slots|) + tail) ==
            Some(Step(values[|values|..], tail))
  {
    assert [] + tail == tail;
    assert values[|values|..] == [];
  }

  lemma {:induction false} EncodeSplit(slots: seq<Slot>, values: seq<Value>, k: nat, tail: seq<byte>)
    requires Conforms(slots, values) && k < |slots| && Holds(slots[k], values)
    ensures EncodeFrom(slots, values, k) + tail ==
            SlotBytes(slots[k], values) + (EncodeFrom(slots, values, k + 1) + tail)
  {
    Associative(SlotBytes(slots[k], values), EncodeFrom(slots, values, k + 1), tail);
  }

  lemma {:induction false} DecodeStep(slots: seq<Slot>, k: nat, counts: map<nat, nat>, bytes: seq<byte>,
                                      rest: seq<byte>)
    requires k < |slots| && |bytes| == Length(slots[k], counts)
    ensures var content := Content(slots[k], counts, bytes);
            var others := DecodeFrom(slots, k + 1, Counted(slots[k], counts, bytes), rest);
            DecodeFrom(slots, k, counts, bytes + rest) ==
            if content.None? || others.None? then None
            else Some(Step(content.value + others.value.value, others.value.rest))
  {
    assert (bytes + rest)[..|bytes|] == bytes && (bytes + rest)[|bytes|..] == rest;
  }

  /** The encoding of a value within the capacities decodes to it, leaving what follows. */
  lemma {:induction false} DecodesEncoding(slots: seq<Slot>, values: seq<Value>, tail: seq<byte>)
    requires Decodable(slots) && Fills(slots, values)
    ensures Decode(slots, Encode(slots, values) + tail) == Some(Step(values, tail))
  {
    DecodesFrom(slots, 0, map[], values, tail);
  }

  // ----- what decodes was encoded

  lemma {:induction false} ConcatFirst(shape: Shape, item: Item, items: seq<Item>)
    requires shape.Fits(item) && AllFit(shape, items)
    ensures AllFit(shape, [item] + items)
    ensures Concat(shape, [item] + items) == shape.Encode(item) + Concat(shape, items)
  {
    assert ([item] + items)[1..] == items;
  }

  lemma {:induction false} SplitNothing(shape: Shape, bytes: seq<byte>)
    requires bytes == []
    ensures AllFit(shape, Split(shape, bytes, 0)) && Concat(shape, Split(shape, bytes, 0)) == bytes
  {
  }

  /** A slot's content, wherever it decodes, fits the slot and encodes to the same bytes. */
  lemma {:induction false} SplitEncodes(shape: Shape, bytes: seq<byte>, n: nat)
    requires |bytes| == n * shape.Width()
    ensures AllFit(shape, Split(shape, bytes, n))
    ensures Concat(shape, Split(shape, bytes, n)) == bytes
    decreases n
  {
    hide *;
    if n == 0 {
      SplitNothing(shape, bytes);
    } else {
      var width := shape.Width();
      SplitFirst(shape, bytes, n);
      SplitEncodes(shape, bytes[width..], n - 1);
      DecodedItem(shape, bytes[..width]);
      ConcatFirst(shape, shape.Decode(bytes[..width]), Split(shape, bytes[width..], n - 1));
      assert bytes == bytes[..width] + bytes[width..];
    }
  }

  lemma {:induction false} DecodedItem(shape: Shape, bytes: seq<byte>)
    requires |bytes| == shape.Width()
    ensures shape.Fits(shape.Decode(bytes)) && shape.Encode(shape.Decode(bytes)) == bytes
  {
    if shape.Integer? {
      ScalarBytesRoundTrip(shape.scalar, bytes);
    }
  }

  /** The counts known once every member from the `k`th is decoded. */
  function FinalCounts(slots: seq<Slot>, k: nat, counts: map<nat, nat>, bytes: seq<byte>): map<nat, nat>
    requires k <= |slots|
    decreases |slots| - k
  {
    if k == |slots| || Length(slots[k], counts) > |bytes| then counts else
    var len := Length(slots[k], counts);
    FinalCounts(slots, k + 1, Counted(slots[k], counts, bytes[..len]), bytes[len..])
  }

  lemma {:induction false} KeepsCount(slots: seq<Slot>, k: nat, counts: map<nat, nat>, bytes: seq<byte>, f: nat)
    requires k <= |slots| && f in counts
    requires forall p | k <= p < |slots| && slots[p].Count? :: slots[p].counted != f
    ensures f in FinalCounts(slots, k, counts, bytes)
    ensures FinalCounts(slots, k, counts, bytes)[f] == counts[f]
    decreases |slots| - k
  {
    if k < |slots| && Length(slots[k], counts) <= |bytes| {
      var len := Length(slots[k], counts);
      KeepsCount(slots, k + 1, Counted(slots[k], counts, bytes[..len]), bytes[len..], f);
    }
  }

  /** A field's value fits its slot, and has the count decoded for it. */
  ghost predicate Fit(slot: Slot, values: seq<Value>, final: map<nat, nat>) {
    slot.Count? ||
    (&& Holds(slot, values)
     && (slot.Elements? ==>
           && |values[slot.field].items| <= slot.capacity
           && slot.field in final && final[slot.field] == |values[slot.field].items|))
  }

  /** A buffer's count is not decoded again. */
  lemma {:induction false} CountIsFinal(slots: seq<Slot>, k: nat, counts: map<nat, nat>, bytes: seq<byte>)
    requires Decodable(slots) && k < |slots|
    requires Length(slots[k], counts) <= |bytes|
    requires slots[k].Elements? ==> slots[k].field in counts
    ensures var final := FinalCounts(slots, k, counts, bytes);
            && (slots[k].Elements? ==> slots[k].field in final && final[slots[k].field] == counts[slots[k].field])
            && (slots[k].Count? ==>
                  && slots[k].counted in final
                  && final[slots[k].counted] == FromLe(bytes[..Length(slots[k], counts)]))
  {
    hide InOrder;
    var len := Length(slots[k], counts);
    if slots[k].Elements? {
      var p :| 0 <= p < k && CountsFor(slots, p, k);
      hide HasCounts;
      assert forall q | k <= q < |slots| && slots[q].Count? :: slots[q].counted != slots[k].field;
      KeepsCount(slots, k, counts, bytes, slots[k].field);
    } else if slots[k].Count? {
      assert forall q | k + 1 <= q < |slots| && slots[q].Count? :: slots[q].counted != slots[k].counted;
      KeepsCount(slots, k + 1, Counted(slots[k], counts, bytes[..len]), bytes[len..], slots[k].counted);
    }
  }

  lemma {:induction false} ContentFits(slots: seq<Slot>, k: nat, counts: map<nat, nat>, bytes: seq<byte>,
                                       values: seq<Value>)
    requires Decodable(slots) && k < |slots| && Length(slots[k], counts) <= |bytes|
    requires var content := Content(slots[k], counts, bytes[..Length(slots[k], counts)]);
             content.Some? && FieldsBefore(slots, k) + |content.value| <= |values|
             && content.value == values[FieldsBefore(slots, k)..FieldsBefore(slots, k) + |content.value|]
    ensures Fit(slots[k], values, FinalCounts(slots, k, counts, bytes))
    ensures |Content(slots[k], counts, bytes[..Length(slots[k], counts)]).value| == if slots[k].Count? then 0 else 1
  {
    assert Placed(slots, k) by { hide HasCounts, HasBuffers; }
    CountIsFinal(slots, k, counts, bytes);
    hide Decodable, FinalCounts, FieldsBefore;
    var slot, piece := slots[k], bytes[..Length(slots[k], counts)];
    var content := Content(slot, counts, piece).value;
    if !slot.Count? {
      assert content[0] == values[FieldIn(slot)];
    }
    match slot {
      case Fixed(f, shape) => DecodedItem(shape, piece);
      case FixedArray(f, shape, len) => SplitEncodes(shape, piece, len);
      case Elements(f, shape, _) => SplitEncodes(shape, piece, counts[f]);
      case Count(_, _) =>
    }
  }

  /** One member's part of a successful decoding. */
  lemma {:induction false} DecodedStep(slots: seq<Slot>, k: nat, counts: map<nat, nat>, bytes: seq<byte>,
                                       values: seq<Value>, rest: seq<byte>)
    returns (content: seq<Value>)
    requires k < |slots| && FieldsBefore(slots, k) <= |values|
    requires DecodeFrom(slots, k, counts, bytes) == Some(Step(values[FieldsBefore(slots, k)..], rest))
    ensures Length(slots[k], counts) <= |bytes|
    ensures var len := Length(slots[k], counts);
            && Content(slots[k], counts, bytes[..len]) == Some(content)
            && FieldsBefore(slots, k) + |content| <= |values|
            && content == values[FieldsBefore(slots, k)..FieldsBefore(slots, k) + |content|]
            && DecodeFrom(slots, k + 1, Counted(slots[k], counts, bytes[..len]), bytes[len..]) ==
               Some(Step(values[FieldsBefore(slots, k) + |content|..], rest))
            && FinalCounts(slots, k, counts, bytes) ==
               FinalCounts(slots, k + 1, Counted(slots[k], counts, bytes[..len]), bytes[len..])
  {
    var len := Length(slots[k], counts);
    content := Content(slots[k], counts, bytes[..len]).value;
    var others := DecodeFrom(slots, k + 1, Counted(slots[k], counts, bytes[..len]), bytes[len..]).value.value;
    var all, at := values[FieldsBefore(slots, k)..], FieldsBefore(slots, k);
    assert all == content + others;
    assert all[..|content|] == content && all[|content|..] == others;
    assert values[at..at + |content|] == all[..|content|];
    assert values[at + |content|..] == all[|content|..];
  }

  lemma {:induction false} AllFitFrom(slots: seq<Slot>, k: nat, counts: map<nat, nat>, bytes: seq<byte>,
                                      values: seq<Value>, rest: seq<byte>)
    requires Decodable(slots) && k <= |slots| && FieldsBefore(slots, k) <= |values|
    requires DecodeFrom(slots, k, counts, bytes) == Some(Step(values[FieldsBefore(slots, k)..], rest))
    ensures |values| == FieldsBefore(slots, |slots|)
    ensures forall j | k <= j < |slots| :: Fit(slots[j], values, FinalCounts(slots, k, counts, bytes))
    decreases |slots| - k
  {
    hide *;
    if k == |slots| {
      NothingLeft(slots, counts, bytes, values[FieldsBefore(slots, k)..], rest);
    } else {
      var content := DecodedStep(slots, k, counts, bytes, values, rest);
      ContentFits(slots, k, counts, bytes, values);
      OneMoreField(slots, k);
      var len := Length(slots[k], counts);
      AllFitFrom(slots, k + 1, Counted(slots[k], counts, bytes[..len]), bytes[len..], values, rest);
    }
  }

  lemma {:induction false} NothingLeft(slots: seq<Slot>, counts: map<nat, nat>, bytes: seq<byte>, values: seq<Value>,
                                       rest: seq<byte>)
    requires DecodeFrom(slots, |slots|, counts, bytes) == Some(Step(values, rest))
    ensures values == [] && rest == bytes
  {
  }

  lemma {:induction false} OneMoreField(slots: seq<Slot>, k: nat)
    requires k < |slots|
    ensures FieldsBefore(slots, k + 1) == FieldsBefore(slots, k) + if slots[k].Count? then 0 else 1
  {
  }

  /** A value whose buffers have the decoded counts conforms. */
  lemma {:induction false} FitConforms(slots: seq<Slot>, values: seq<Value>, final: map<nat, nat>)
    requires Decodable(slots)
    requires forall j | 0 <= j < |slots| :: Fit(slots[j], values, final)
    ensures Conforms(slots, values) && WithinCapacity(slots, values)
  {
    hide InOrder, HasCounts;
    forall j | 0 <= j < |slots|
      ensures Holds(slots[j], values)
    {
      if slots[j].Count? {
        var b :| j < b < |slots| && CountsFor(slots, j, b);
        assert Fit(slots[b], values, final);
      } else {
        assert Fit(slots[j], values, final);
      }
    }
    hide HasBuffers;
    forall j | 0 <= j < |slots| && slots[j].Elements?
      ensures Holds(slots[j], values) && |values[slots[j].field].items| <= slots[j].capacity
    {
      assert Fit(slots[j], values, final);
    }
  }

  /** One member encodes to the bytes it was decoded from. */
  lemma {:induction false} SlotReencodes(slots: seq<Slot>, k: nat, counts: map<nat, nat>, bytes: seq<byte>,
                                         values: seq<Value>)
    requires Decodable(slots) && k < |slots| && Length(slots[k], counts) <= |bytes|
    requires Conforms(slots, values) && Holds(slots[k], values)
    requires var content := Content(slots[k], counts, bytes[..Length(slots[k], counts)]);
             content.Some? && FieldsBefore(slots, k) + |content.value| <= |values|
             && content.value == values[FieldsBefore(slots, k)..FieldsBefore(slots, k) + |content.value|]
    requires forall j | 0 <= j < |slots| :: Fit(slots[j], values, FinalCounts(slots, k, counts, bytes))
    ensures SlotBytes(slots[k], values) == bytes[..Length(slots[k], counts)]
  {
    assert Placed(slots, k) by { hide HasCounts, HasBuffers; }
    CountIsFinal(slots, k, counts, bytes);
    var slot, piece := slots[k], bytes[..Length(slots[k], counts)];
    if slot.Count? {
      hide InOrder, HasCounts;
      var b :| k < b < |slots| && CountsFor(slots, k, b);
      assert Fit(slots[b], values, FinalCounts(slots, k, counts, bytes));
      assert |values[slot.counted].items| == FromLe(piece);
      hide Decodable, FinalCounts;
      ToFromLe(piece);
    } else {
      hide Decodable, FinalCounts, FieldsBefore;
      assert Content(slot, counts, piece).value[0] == values[FieldIn(slot)];
      match slot {
        case Fixed(f, shape) => DecodedItem(shape, piece);
        case FixedArray(f, shape, len) => SplitEncodes(shape, piece, len);
        case Elements(f, shape, _) => SplitEncodes(shape, piece, counts[f]);
      }
    }
  }

  lemma {:induction false} EncodesNothing(slots: seq<Slot>, values: seq<Value>, rest: seq<byte>)
    requires Conforms(slots, values)
    ensures EncodeFrom(slots, values, |slots|) + rest == rest
  {
  }

  lemma {:induction false} ReencodesFrom(slots: seq<Slot>, k: nat, counts: map<nat, nat>, bytes: seq<byte>,
                                         values: seq<Value>, rest: seq<byte>)
    requires Decodable(slots) && k <= |slots| && Conforms(slots, values) && FieldsBefore(slots, k) <= |values|
    requires DecodeFrom(slots, k, counts, bytes) == Some(Step(values[FieldsBefore(slots, k)..], rest))
    requires forall j | 0 <= j < |slots| :: Holds(slots[j], values) && Fit(slots[j], values, FinalCounts(slots, k, counts, bytes))
    ensures bytes == EncodeFrom(slots, values, k) + rest
    decreases |slots| - k
  {
    hide *;
    if k == |slots| {
      NothingLeft(slots, counts, bytes, values[FieldsBefore(slots, k)..], rest);
      EncodesNothing(slots, values, rest);
    } else {
      var content := DecodedStep(slots, k, counts, bytes, values, rest);
      ContentFits(slots, k, counts, bytes, values);
      SlotReencodes(slots, k, counts, bytes, values);
      OneMoreField(slots, k);
      var len := Length(slots[k], counts);
      ReencodesFrom(slots, k + 1, Counted(slots[k], counts, bytes[..len]), bytes[len..], values, rest);
      EncodeSplit(slots, values, k, rest);
      assert bytes == bytes[..len] + bytes[len..];
    }
  }

  /** Whatever decodes is the encoding of the result, which fills the buffers within their
      capacities, followed by the bytes left. */
  lemma {:induction false} DecodedWasEncoded(slots: seq<Slot>, bytes: seq<byte>, values: seq<Value>, rest: seq<byte>)
    requires Decodable(slots)
    requires Decode(slots, bytes) == Some(Step(values, rest))
    ensures Fills(slots, values)
    ensures bytes == Encode(slots, values) + rest
  {
    assert values[0..] == values;
    AllFitFrom(slots, 0, map[], bytes, values, rest);
    FitConforms(slots, values, FinalCounts(slots, 0, map[], bytes));
    ReencodesFrom(slots, 0, map[], bytes, values, rest);
  }
}

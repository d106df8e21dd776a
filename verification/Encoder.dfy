/** The generated encoder: what it writes, how large that is, and which parameters its
    constructor accepts (crates/stm32wb-hci-macros/src/command.rs). */
module Encoder {
  import opened Bytes
  import opened Plan

  // ----- what is written

  /** The encodings of an array's elements, one after another. */
  function Concat(shape: Shape, items: seq<Item>): (bytes: seq<byte>)
    ensures AllFit(shape, items) ==> |bytes| == |items| * shape.Width()
  {
    if items == [] then [] else
    assert items == [items[0]] + items[1..];
    shape.Encode(items[0]) + Concat(shape, items[1..])
  }

  function SlotBytes(slot: Slot, values: seq<Value>): seq<byte>
    requires Holds(slot, values)
  {
    match slot
    case Fixed(f, shape) => shape.Encode(values[f].item)
    case FixedArray(f, shape, _) => Concat(shape, values[f].items)
    case Count(f, scalar) => scalar.Encode(|values[f].items|)
    case Elements(f, shape, _) => Concat(shape, values[f].items)
    case Selector(f, scalar) => scalar.Encode(values[f].tag)
    case Union(f, _, _) => values[f].bytes
    case Optional(f, scalar) =>
      if values[f].supplied.Some? then scalar.Encode(values[f].supplied.value) else []
  }

  /** The encoding of the members from the `k`th. */
  function EncodeFrom(slots: seq<Slot>, values: seq<Value>, k: nat): seq<byte>
    requires Conforms(slots, values) && k <= |slots|
    decreases |slots| - k
  {
    if k == |slots| then [] else SlotBytes(slots[k], values) + EncodeFrom(slots, values, k + 1)
  }

  function Encode(slots: seq<Slot>, values: seq<Value>): seq<byte>
    requires Conforms(slots, values)
  {
    EncodeFrom(slots, values, 0)
  }

  /** The generated `size()` adds up each member's width without encoding it. */
  function SlotSize(slot: Slot, values: seq<Value>): nat
    requires Holds(slot, values)
  {
    match slot
    case Fixed(_, shape) => shape.Width()
    case FixedArray(f, shape, _) => |values[f].items| * shape.Width()
    case Count(_, scalar) => scalar.Width()
    case Elements(f, shape, _) => |values[f].items| * shape.Width()
    case Selector(_, scalar) => scalar.Width()
    case Union(f, _, _) => |values[f].bytes|
    case Optional(f, scalar) => if values[f].supplied.Some? then scalar.Width() else 0
  }

  function SizeFrom(slots: seq<Slot>, values: seq<Value>, k: nat): nat
    requires Conforms(slots, values) && k <= |slots|
    decreases |slots| - k
  {
    if k == |slots| then 0 else SlotSize(slots[k], values) + SizeFrom(slots, values, k + 1)
  }

  function Size(slots: seq<Slot>, values: seq<Value>): nat
    requires Conforms(slots, values)
  {
    SizeFrom(slots, values, 0)
  }

  lemma {:induction false} SizeIsLength(slots: seq<Slot>, values: seq<Value>, k: nat)
    requires Conforms(slots, values) && k <= |slots|
    ensures SizeFrom(slots, values, k) == |EncodeFrom(slots, values, k)|
    decreases |slots| - k
  {
    if k < |slots| {
      assert Holds(slots[k], values);
      SizeIsLength(slots, values, k + 1);
    }
  }

  /** A fixed buffer written front to back, which refuses what does not fit. */
  class Sink {
    const buffer: array<byte>
    const end: nat
    var at: nat

    ghost predicate Valid()
      reads this
    {
      at <= end <= buffer.Length
    }

    ghost function Written(): seq<byte>
      requires Valid()
      reads this, buffer
    {
      buffer[..at]
    }

    constructor (buffer: array<byte>, end: nat)
      requires end <= buffer.Length
      ensures Valid() && this.buffer == buffer && this.end == end && at == 0
    {
      this.buffer, this.end, this.at := buffer, end, 0;
    }

    method WriteAll(bytes: seq<byte>) returns (ok: bool)
      requires Valid()
      modifies this`at, buffer
      ensures Valid()
      ensures ok <==> |old(Written())| + |bytes| <= end
      ensures ok ==> Written() == old(Written()) + bytes
    {
      var n := if |bytes| <= end - at then |bytes| else end - at;
      for i := 0 to n
        invariant at == old(at)
        invariant buffer[..at] == old(buffer[..at])
        invariant buffer[at..at + i] == bytes[..i]
      {
        buffer[at + i] := bytes[i];
      }
      at := at + n;
      ok := n == |bytes|;
      assert ok ==> buffer[..at] == buffer[..old(at)] + buffer[old(at)..at];
    }
  }

  lemma {:induction false} ConcatStep(shape: Shape, items: seq<Item>, i: nat, done: seq<byte>)
    requires i < |items|
    ensures done + Concat(shape, items[i..]) == (done + shape.Encode(items[i])) + Concat(shape, items[i + 1..])
  {
    assert items[i..][0] == items[i] && items[i..][1..] == items[i + 1..];
    Associative(done, shape.Encode(items[i]), Concat(shape, items[i + 1..]));
  }

  method WriteItems(shape: Shape, items: seq<Item>, sink: Sink) returns (ok: bool)
    requires sink.Valid()
    modifies sink`at, sink.buffer
    ensures sink.Valid()
    ensures ok <==> |old(sink.Written())| + |Concat(shape, items)| <= sink.end
    ensures ok ==> sink.Written() == old(sink.Written()) + Concat(shape, items)
  {
    for i := 0 to |items|
      invariant sink.Valid()
      invariant sink.Written() + Concat(shape, items[i..]) == old(sink.Written()) + Concat(shape, items)
    {
      hide Concat;
      ConcatStep(shape, items, i, sink.Written());
      var written := sink.WriteAll(shape.Encode(items[i]));
      if !written {
        return false;
      }
    }
    return true;
  }

  /** The generated `write_hci`: every member in layout order, array fields one element at
      a time, counts and selectors from the fields they serve. */
  method WriteHci(slots: seq<Slot>, values: seq<Value>, sink: Sink) returns (ok: bool)
    requires Conforms(slots, values) && sink.Valid()
    modifies sink`at, sink.buffer
    ensures sink.Valid()
    ensures ok <==> |old(sink.Written())| + |Encode(slots, values)| <= sink.end
    ensures ok ==> sink.Written() == old(sink.Written()) + Encode(slots, values)
  {
    ghost var target := sink.Written() + Encode(slots, values);
    for k := 0 to |slots|
      invariant sink.Valid()
      invariant sink.Written() + EncodeFrom(slots, values, k) == target
    {
      EncodeStep(slots, values, k, sink.Written());
      var written := WriteSlot(slots[k], values, sink);
      if !written {
        return false;
      }
    }
    return true;
  }

  lemma {:induction false} Associative(a: seq<byte>, b: seq<byte>, c: seq<byte>)
    ensures (a + b) + c == a + (b + c)
  {
  }

  lemma {:induction false} EncodeStep(slots: seq<Slot>, values: seq<Value>, k: nat, done: seq<byte>)
    requires Conforms(slots, values) && k < |slots|
    ensures Holds(slots[k], values)
    ensures done + EncodeFrom(slots, values, k) ==
            (done + SlotBytes(slots[k], values)) + EncodeFrom(slots, values, k + 1)
  {
    Associative(done, SlotBytes(slots[k], values), EncodeFrom(slots, values, k + 1));
  }

  method WriteSlot(slot: Slot, values: seq<Value>, sink: Sink) returns (ok: bool)
    requires Holds(slot, values) && sink.Valid()
    modifies sink`at, sink.buffer
    ensures sink.Valid()
    ensures ok <==> |old(sink.Written())| + |SlotBytes(slot, values)| <= sink.end
    ensures ok ==> sink.Written() == old(sink.Written()) + SlotBytes(slot, values)
  {
    match slot {
      case Fixed(f, shape) => ok := sink.WriteAll(shape.Encode(values[f].item));
      case FixedArray(f, shape, _) => ok := WriteItems(shape, values[f].items, sink);
      case Count(f, scalar) => ok := sink.WriteAll(scalar.Encode(|values[f].items|));
      case Elements(f, shape, _) => ok := WriteItems(shape, values[f].items, sink);
      case Selector(f, scalar) => ok := sink.WriteAll(scalar.Encode(values[f].tag));
      case Union(f, _, _) => ok := sink.WriteAll(values[f].bytes);
      case Optional(f, scalar) =>
        ok := true;
        if values[f].supplied.Some? {
          ok := sink.WriteAll(scalar.Encode(values[f].supplied.value));
        }
    }
  }
}

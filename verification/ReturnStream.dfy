/** Reading return parameters from a stream into a buffer, member by member, before they
    are decoded (crates/stm32wb-hci-macros/src/command.rs). */
module ReturnStream {
  import opened Options
  import opened Bytes
  import opened Layout
  import opened Plan
  import opened Encoder
  import opened Constructor
  import opened DirectCall
  import opened RoundTrip
  import opened Returns

  /** A byte stream; reading past its end fails, having consumed what was left. */
  class Stream {
    const data: seq<byte>
    var at: nat

    ghost predicate Valid()
      reads this
    {
      at <= |data|
    }

    function Rest(): seq<byte>
      requires Valid()
      reads this
    {
      data[at..]
    }

    constructor (data: seq<byte>)
      ensures Valid() && Rest() == data
    {
      this.data, this.at := data, 0;
    }

    /** Fill `buffer[start..end]`. */
    method ReadExact(buffer: array<byte>, start: nat, end: nat) returns (ok: bool)
      requires Valid() && start <= end <= buffer.Length
      modifies this`at, buffer
      ensures Valid()
      ensures ok <==> end - start <= |old(Rest())|
      ensures ok ==> buffer[..end] == old(buffer[..start]) + old(Rest())[..end - start]
      ensures ok ==> Rest() == old(Rest())[end - start..]
    {
      var n := if end - start <= |data| - at then end - start else |data| - at;
      for i := 0 to n
        invariant at == old(at)
        invariant buffer[..start] == old(buffer[..start])
        invariant buffer[start..start + i] == data[at..at + i]
      {
        buffer[start + i] := data[at + i];
      }
      at := at + n;
      ok := n == end - start;
      if ok {
        assert buffer[..end] == buffer[..start] + buffer[start..end];
        assert old(Rest())[..n] == data[old(at)..old(at) + n];
      }
    }
  }

  /** The bytes the members from the `k`th take from the front of `data`, if it has them. */
  function Consumed(slots: seq<Slot>, k: nat, counts: map<nat, nat>, data: seq<byte>): (n: Option<nat>)
    requires k <= |slots|
    ensures n.Some? ==> n.value <= |data|
    decreases |slots| - k
  {
    if k == |slots| then Some(0) else
    var len := Length(slots[k], counts);
    if len > |data| then None else
    var others := Consumed(slots, k + 1, Counted(slots[k], counts, data[..len]), data[len..]);
    if others.None? then None else Some(len + others.value)
  }

  /** What decodes leaving `rest` is what the reads consume, whatever follows. */
  lemma {:induction false} ConsumesDecoded(slots: seq<Slot>, k: nat, counts: map<nat, nat>, bytes: seq<byte>,
                                           more: seq<byte>)
    requires k <= |slots|
    requires DecodeFrom(slots, k, counts, bytes).Some? && DecodeFrom(slots, k, counts, bytes).value.rest == []
    ensures Consumed(slots, k, counts, bytes + more) == Some(|bytes|)
    decreases |slots| - k
  {
    if k < |slots| {
      var len := Length(slots[k], counts);
      assert (bytes + more)[..len] == bytes[..len] && (bytes + more)[len..] == bytes[len..] + more;
      ConsumesDecoded(slots, k + 1, Counted(slots[k], counts, bytes[..len]), bytes[len..], more);
    }
  }

  ghost function Later(filled: nat, n: Option<nat>): Option<nat> {
    if n.None? then None else Some(filled + n.value)
  }

  lemma {:induction false} ConsumedStep(slots: seq<Slot>, k: nat, counts: map<nat, nat>, data: seq<byte>, start: nat)
    requires k < |slots| && start <= |data|
    ensures var len := Length(slots[k], counts);
            Later(start, Consumed(slots, k, counts, data[start..])) ==
            if start + len > |data| then None
            else Later(start + len,
                       Consumed(slots, k + 1, Counted(slots[k], counts, data[start..start + len]), data[start + len..]))
  {
    var len := Length(slots[k], counts);
    if start + len <= |data| {
      assert data[start..][..len] == data[start..start + len] && data[start..][len..] == data[start + len..];
    }
  }

  /** The reads of every member, each count taken from the buffer as soon as it is read:
      a stream's bytes are read into the buffer while it has room. */
  method Fill(slots: seq<Slot>, stream: Stream, buffer: array<byte>) returns (filled: nat, ok: bool)
    requires stream.Valid()
    modifies stream`at, buffer
    ensures stream.Valid()
    ensures var n := Consumed(slots, 0, map[], old(stream.Rest()));
            ok <==> n.Some? && n.value <= buffer.Length
    ensures ok ==>
              && Consumed(slots, 0, map[], old(stream.Rest())) == Some(filled)
              && filled <= buffer.Length && filled <= |old(stream.Rest())|
              && buffer[..filled] == old(stream.Rest())[..filled]
              && stream.Rest() == old(stream.Rest())[filled..]
  {
    ghost var data := stream.Rest();
    ghost var total := Consumed(slots, 0, map[], data);
    filled, ok := 0, true;
    var counts := map[];
    for k := 0 to |slots|
      invariant stream.Valid() && filled <= |data| && filled <= buffer.Length
      invariant buffer[..filled] == data[..filled] && stream.Rest() == data[filled..]
      invariant total == Later(filled, Consumed(slots, k, counts, data[filled..]))
    {
      hide Consumed, Length, Counted;
      ConsumedStep(slots, k, counts, data, filled);
      var start := filled;
      filled := filled + Length(slots[k], counts);
      if filled > buffer.Length {
        return filled, false;
      }
      ok := stream.ReadExact(buffer, start, filled);
      if !ok {
        return;
      }
      assert buffer[..filled] == data[..filled];
      assert buffer[start..filled] == buffer[..filled][start..];
      counts := Counted(slots[k], counts, buffer[start..filled]);
    }
  }

  /** The first `n` bytes fit the buffer and decode completely to `values`. */
  ghost predicate Reads(slots: seq<Slot>, room: nat, data: seq<byte>, n: int, values: seq<Value>) {
    0 <= n <= |data| && n <= room && Decode(slots, data[..n]) == Some(Step(values, []))
  }

  /** The generated `read_hci`: the bytes read are decoded completely. Its result is that of
      decoding the prefix of the stream that decodes completely, if there is one and it
      fits the buffer; then that prefix is consumed. */
  method ReadHci(slots: seq<Slot>, stream: Stream, buffer: array<byte>) returns (result: Option<seq<Value>>)
    requires stream.Valid()
    modifies stream`at, buffer
    ensures stream.Valid()
    ensures result.Some? ==>
              exists n :: Reads(slots, buffer.Length, old(stream.Rest()), n, result.value)
                          && stream.Rest() == old(stream.Rest())[n..]
    ensures forall n, values :: Reads(slots, buffer.Length, old(stream.Rest()), n, values) ==> result == Some(values)
  {
    ghost var data := stream.Rest();
    forall n | 0 <= n <= |data| && Decode(slots, data[..n]).Some? && Decode(slots, data[..n]).value.rest == []
      ensures Consumed(slots, 0, map[], data) == Some(n)
    {
      ConsumesDecoded(slots, 0, map[], data[..n], data[n..]);
      assert data[..n] + data[n..] == data;
    }
    var filled, ok := Fill(slots, stream, buffer);
    if !ok {
      return None;
    }
    var decoded := Decode(slots, buffer[..filled]);
    if decoded.None? || decoded.value.rest != [] {
      return None;
    }
    assert Reads(slots, buffer.Length, data, filled, decoded.value.value);
    result := Some(decoded.value.value);
  }

  function MaxLength(slot: Slot): nat {
    match slot
    case FixedArray(_, shape, len) => len * shape.Width()
    case Elements(_, shape, capacity) => capacity * shape.Width()
    case Fixed(_, shape) => shape.Width()
    case Count(_, scalar) => scalar.Width()
    case _ => 0
  }

  /** `MAX_LEN`. */
  function MaxLen(slots: seq<Slot>, k: nat): nat
    requires k <= |slots|
    decreases |slots| - k
  {
    if k == |slots| then 0 else MaxLength(slots[k]) + MaxLen(slots, k + 1)
  }

  lemma {:induction false} SlotWithinMaxLength(slots: seq<Slot>, values: seq<Value>, k: nat)
    requires InOrder(slots) && Fills(slots, values) && k < |slots|
    ensures Holds(slots[k], values)
    ensures |SlotBytes(slots[k], values)| <= MaxLength(slots[k])
  {
    assert Placed(slots, k) && Holds(slots[k], values);
    if slots[k].Elements? {
      ProductGrows(|values[slots[k].field].items|, slots[k].capacity, slots[k].shape.Width());
    }
    hide InOrder, Fills;
  }

  lemma {:induction false} EncodesWithinMaxLen(slots: seq<Slot>, values: seq<Value>, k: nat)
    requires InOrder(slots) && Fills(slots, values) && Conforms(slots, values) && k <= |slots|
    ensures |EncodeFrom(slots, values, k)| <= MaxLen(slots, k)
    decreases |slots| - k
  {
    hide InOrder, Fills, Conforms, Holds, SlotBytes, MaxLength;
    if k < |slots| {
      EncodesWithinMaxLen(slots, values, k + 1);
      SlotWithinMaxLength(slots, values, k);
    }
  }

  /** A stream starting with the encoding of a value within the capacities gives that
      value, with a buffer of `MAX_LEN` bytes, and keeps every byte after it. */
  method ReadEncoded(slots: seq<Slot>, stream: Stream, buffer: array<byte>, ghost values: seq<Value>)
    returns (result: Option<seq<Value>>)
    requires stream.Valid() && Decodable(slots) && Fills(slots, values) && Conforms(slots, values)
    requires Encode(slots, values) <= stream.Rest() && MaxLen(slots, 0) <= buffer.Length
    modifies stream`at, buffer
    ensures stream.Valid()
    ensures result == Some(values)
    ensures Encode(slots, values) + stream.Rest() == old(stream.Rest())
  {
    hide Decodable, Fills, Conforms, Decode, MaxLen, Encode;
    ghost var data := stream.Rest();
    EncodingReads(slots, values, buffer.Length, data);
    result := ReadHci(slots, stream, buffer);
    ghost var n :| Reads(slots, buffer.Length, data, n, values) && stream.Rest() == data[n..];
    ReadsEncoding(slots, values, buffer.Length, data, n);
  }

  lemma {:induction false} EncodingReads(slots: seq<Slot>, values: seq<Value>, room: nat, data: seq<byte>)
    requires Decodable(slots) && Fills(slots, values)
    requires Encode(slots, values) <= data && MaxLen(slots, 0) <= room
    ensures Reads(slots, room, data, |Encode(slots, values)|, values)
  {
    assert InOrder(slots) && Conforms(slots, values);
    var bytes := Encode(slots, values);
    EncodesWithinMaxLen(slots, values, 0);
    DecodesEncoding(slots, values, []);
    assert bytes + [] == bytes && data[..|bytes|] == bytes;
  }

  lemma {:induction false} ReadsEncoding(slots: seq<Slot>, values: seq<Value>, room: nat, data: seq<byte>, n: int)
    requires Decodable(slots) && Reads(slots, room, data, n, values)
    ensures Fills(slots, values) && 0 <= n <= |data| && Encode(slots, values) + data[n..] == data
  {
    assert Decode(slots, data[..n]) == Some(Step(values, []));
    hide Decode, Decodable;
    DecodedWasEncoded(slots, data[..n], values, []);
    hide Fills, Encode;
    assert Encode(slots, values) + [] == Encode(slots, values);
    assert data == data[..n] + data[n..];
  }

  // ----- planned return parameters

  lemma {:induction false} PlannedPlaced(structs: Structs, fields: seq<Field>, slots: seq<Slot>, k: nat)
    requires Acyclic(structs) && Plans(structs, fields, Side.Returns, slots) && k < |fields|
    ensures slots[k].Fixed? || slots[k].FixedArray? || slots[k].Count? || slots[k].Elements?
    ensures slots[k].Count? <==> Derived(fields, k)
    ensures !slots[k].Count? ==> FieldIn(slots[k]) == FieldOf(fields, k)
  {
    assert PlanMember(structs, fields, k, Side.Returns) == Some(slots[k]);
    if Derived(fields, k) {
      var d := Dependent(fields, fields[k].name).value;
      assert PlanMember(structs, fields, d, Side.Returns) == Some(slots[d]);
    }
  }

  lemma {:induction false} FieldsAgree(structs: Structs, fields: seq<Field>, slots: seq<Slot>, k: nat)
    requires Acyclic(structs) && Plans(structs, fields, Side.Returns, slots) && k <= |fields| && |slots| == |fields|
    ensures FieldsBefore(slots, k) == FieldOf(fields, k)
  {
    if k > 0 {
      FieldsAgree(structs, fields, slots, k - 1);
      PlannedPlaced(structs, fields, slots, k - 1);
      hide Plans, Derived;
    }
  }

  lemma {:induction false} PlannedCount(structs: Structs, fields: seq<Field>, slots: seq<Slot>, k: nat)
    requires Acyclic(structs) && ValidLayout(structs, fields) && Plans(structs, fields, Side.Returns, slots)
    requires OneDependentEach(fields) && k < |fields| && |slots| == |fields|
    ensures slots[k].Elements? ==> exists p | 0 <= p < k :: CountsFor(slots, p, k)
  {
    assert PlanMember(structs, fields, k, Side.Returns) == Some(slots[k]);
    if slots[k].Elements? {
      var name := fields[k].ty.Reference().value;
      ReferenceIsEarlier(structs, fields, k);
      var p := Position(fields, name).value;
      assert Dependent(fields, name) == Some(k);
      assert PlanMember(structs, fields, p, Side.Returns) == Some(slots[p]);
      assert CountsFor(slots, p, k);
    }
  }

  lemma {:induction false} PlannedBuffer(structs: Structs, fields: seq<Field>, slots: seq<Slot>,
                                         p: nat) returns (d: nat)
    requires Acyclic(structs) && ValidLayout(structs, fields) && Plans(structs, fields, Side.Returns, slots)
    requires p < |fields| && |slots| == |fields| && slots[p].Count?
    ensures p < d < |fields| && CountsFor(slots, p, d)
    ensures fields[d].ty.Reference() == Some(fields[p].name)
    ensures slots[p].counted == FieldOf(fields, d) && !Derived(fields, d)
  {
    assert PlanMember(structs, fields, p, Side.Returns) == Some(slots[p]);
    d := Dependent(fields, fields[p].name).value;
    assert PlanMember(structs, fields, d, Side.Returns) == Some(slots[d]);
    ReferenceIsEarlier(structs, fields, d);
    NamedAt(structs, fields, p);
  }

  lemma {:induction false} FieldOfGrows(fields: seq<Field>, j: nat, k: nat)
    requires j < k <= |fields| && !Derived(fields, j)
    ensures FieldOf(fields, j) < FieldOf(fields, k)
    decreases k
  {
    if j < k - 1 {
      FieldOfGrows(fields, j, k - 1);
    }
  }

  lemma {:induction false} DistinctBuffers(structs: Structs, fields: seq<Field>, slots: seq<Slot>, p: nat, q: nat)
    requires Acyclic(structs) && ValidLayout(structs, fields) && Plans(structs, fields, Side.Returns, slots)
    requires p < q < |fields| && |slots| == |fields| && slots[p].Count? && slots[q].Count?
    ensures slots[p].counted != slots[q].counted
  {
    hide OneDependentEach, HasBuffers;
    var d := PlannedBuffer(structs, fields, slots, p);
    var e := PlannedBuffer(structs, fields, slots, q);
    assert fields[p].name != fields[q].name by {
      assert ValidMember(structs, fields, q);
    }
    hide Plans, ValidLayout, Derived, CountsFor;
    if d < e {
      FieldOfGrows(fields, d, e);
    } else {
      FieldOfGrows(fields, e, d);
    }
  }

  /** Return layouts the catalog accepts and the plan supports are decodable. */
  lemma {:induction false} PlannedDecodable(structs: Structs, fields: seq<Field>, slots: seq<Slot>)
    requires Acyclic(structs) && ValidLayout(structs, fields) && OneDependentEach(fields)
    requires PlanOf(structs, fields, Side.Returns) == Some(slots)
    ensures Decodable(slots)
  {
    PlanAt(structs, fields, Side.Returns);
    forall k | 0 <= k < |slots|
      ensures Placed(slots, k)
      ensures slots[k].Elements? ==> exists p | 0 <= p < k :: CountsFor(slots, p, k)
      ensures slots[k].Count? ==> exists d | k < d < |slots| :: CountsFor(slots, k, d)
    {
      PlannedPlaced(structs, fields, slots, k);
      FieldsAgree(structs, fields, slots, k);
      PlannedCount(structs, fields, slots, k);
      if slots[k].Count? {
        var d := PlannedBuffer(structs, fields, slots, k);
      }
    }
    forall p, q | 0 <= p < q < |slots| && slots[p].Count? && slots[q].Count?
      ensures slots[p].counted != slots[q].counted
    {
      DistinctBuffers(structs, fields, slots, p, q);
    }
    hide Plans, PlanOf, ValidLayout, OneDependentEach, Placed, CountsFor;
  }
}

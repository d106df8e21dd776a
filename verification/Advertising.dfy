/** Advertising data, built in place from AD structures
    (crates/stm32wb-hci/src/adv_data.rs; Bluetooth Core, Vol 3, Part C, section 11). */
module Advertising {
  import opened Options
  import opened Bytes
  import opened Layout

  const FLAGS: byte := 0x01
  const SHORTENED_LOCAL_NAME: byte := 0x08
  const COMPLETE_LOCAL_NAME: byte := 0x09
  const CONN_INTERVAL_RANGE: byte := 0x12

  /** An AD structure: its type and data. */
  datatype AdStructure = AdStructure(adType: byte, data: seq<byte>)

  datatype Outcome = Appended | TooLong(needed: nat, capacity: nat)

  /** The error for data of `dataLen` bytes after `len`, or none. */
  function OutcomeOf(len: nat, capacity: nat, dataLen: nat): Outcome {
    if len + 2 + dataLen > capacity || dataLen > 254 then TooLong(len + 2 + dataLen, capacity) else Appended
  }

  function Flatten(parts: seq<seq<byte>>): seq<byte> {
    if parts == [] then [] else Flatten(parts[..|parts| - 1]) + parts[|parts| - 1]
  }

  function UuidBytes(uuids: seq<u16>): (bytes: seq<byte>)
    ensures |bytes| == 2 * |uuids|
  {
    if uuids == [] then [] else UuidBytes(uuids[..|uuids| - 1]) + ToLe(uuids[|uuids| - 1], 2)
  }

  /** A structure on the air: the length of what follows, the type, and the data. */
  function Encoded(structure: AdStructure): seq<byte>
    requires |structure.data| <= 254
  {
    [|structure.data| + 1, structure.adType] + structure.data
  }

  predicate Encodable(structures: seq<AdStructure>) {
    forall i | 0 <= i < |structures| :: |structures[i].data| <= 254
  }

  function EncodeAll(structures: seq<AdStructure>): seq<byte>
    requires Encodable(structures)
  {
    if structures == [] then []
    else EncodeAll(structures[..|structures| - 1]) + Encoded(structures[|structures| - 1])
  }

  /** Read structures one after the other: a length byte of at least 1, then that many
      bytes, the first of which is the type. */
  function Parse(bytes: seq<byte>): Option<seq<AdStructure>> {
    if bytes == [] then Some([]) else
    var length: nat := bytes[0];
    if length == 0 || |bytes| < 1 + length then None else
    var rest := Parse(bytes[1 + length..]);
    if rest.None? then None else Some([AdStructure(bytes[1], bytes[2..1 + length])] + rest.value)
  }

  /** Copy `part` into an array, from `at` on. */
  method CopyFromSlice(bytes: array<byte>, at: nat, part: seq<byte>)
    requires at + |part| <= bytes.Length
    modifies bytes
    ensures bytes[..at + |part|] == old(bytes[..at]) + part
  {
    forall j | 0 <= j < |part| {
      bytes[at + j] := part[j];
    }
  }

  lemma {:induction false} Regroup(a: seq<byte>, b: seq<byte>, c: seq<byte>)
    ensures (a + b) + c == a + (b + c)
  {
  }

  /** The sum of the lengths of the parts. */
  method TotalLength(parts: seq<seq<byte>>) returns (total: nat)
    ensures total == |Flatten(parts)|
  {
    total := 0;
    for i := 0 to |parts|
      invariant total == |Flatten(parts[..i])|
    {
      FlattenNext(parts, i);
      total := total + |parts[i]|;
    }
    assert parts[..|parts|] == parts;
  }

  /** A list of UUIDs behind what was there: its length, its type, and each UUID with the less
      significant byte first. */
  predicate Lists(before: seq<byte>, adType: byte, uuids: seq<u16>, after: seq<byte>) {
    && |after| == |before| + 2 + 2 * |uuids| && before <= after
    && after[|before|] == 2 * |uuids| + 1 && after[|before| + 1] == adType
    && forall i | 0 <= i < |uuids| ::
         after[|before| + 2 + 2 * i] == uuids[i] % 256 && after[|before| + 3 + 2 * i] == uuids[i] / 256
  }

  // ----- the builder

  class AdvData {
    const bytes: array<byte>
    var len: nat

    ghost predicate Valid()
      reads this
    {
      len <= bytes.Length
    }

    /** The encoded AD structures. */
    function AsBytes(): seq<byte>
      requires Valid()
      reads this, bytes
    {
      bytes[..len]
    }

    constructor (capacity: nat)
      ensures Valid() && fresh(bytes) && bytes.Length == capacity && AsBytes() == []
    {
      bytes := new byte[capacity](_ => 0);
      len := 0;
    }

    /** Append a structure whose data is the concatenation of `parts`. */
    method Structure(adType: byte, parts: seq<seq<byte>>) returns (outcome: Outcome)
      requires Valid()
      modifies this, bytes
      ensures Valid()
      ensures outcome == OutcomeOf(old(len), bytes.Length, |Flatten(parts)|)
      ensures outcome.Appended? <==> old(len) + 2 + |Flatten(parts)| <= bytes.Length && |Flatten(parts)| <= 254
      ensures outcome.Appended? ==> AsBytes() == old(AsBytes()) + [|Flatten(parts)| + 1, adType] + Flatten(parts)
      ensures outcome.TooLong? ==> outcome == TooLong(old(len) + 2 + |Flatten(parts)|, bytes.Length)
      ensures outcome.Appended? ==> AsBytes() == old(AsBytes()) + Encoded(AdStructure(adType, Flatten(parts)))
      ensures outcome.TooLong? ==> AsBytes() == old(AsBytes())
    {
      var dataLen := TotalLength(parts);
      assert parts[..|parts|] == parts;
      var needed := len + 2 + dataLen;
      if needed > bytes.Length || dataLen > 254 {
        return TooLong(needed, bytes.Length);
      }
      ghost var start := AsBytes() + [dataLen + 1, adType];
      bytes[len] := dataLen + 1;
      bytes[len + 1] := adType;
      var at := len + 2;
      Started(parts, start, bytes[..at]);
      for i := 0 to |parts|
        invariant len == old(len) && at == len + 2 + |Flatten(parts[..i])| <= bytes.Length
        invariant bytes[..at] == start + Flatten(parts[..i])
      {
        hide *;
        PartNext(start, parts, i);
        PrefixFits(parts, i + 1);
        CopyFromSlice(bytes, at, parts[i]);
        at := at + |parts[i]|;
      }
      Completed(old(AsBytes()), adType, Flatten(parts));
      len := at;
      return Appended;
    }

    /** Append 16-bit UUIDs: an empty structure, whose length byte is then raised. */
    method Uuid16List(adType: byte, uuids: seq<u16>) returns (outcome: Outcome)
      requires Valid()
      modifies this, bytes
      ensures Valid()
      ensures outcome == OutcomeOf(old(len), bytes.Length, |UuidBytes(uuids)|)
      ensures outcome.Appended? <==> old(len) + 2 + 2 * |uuids| <= bytes.Length && |uuids| <= 127
      ensures outcome.Appended? ==> Lists(old(AsBytes()), adType, uuids, AsBytes())
      ensures outcome.Appended? ==> AsBytes() == old(AsBytes()) + Encoded(AdStructure(adType, UuidBytes(uuids)))
      ensures outcome.TooLong? ==> AsBytes() == old(AsBytes())
    {
      var needed := len + 2 + 2 * |uuids|;
      if needed > bytes.Length || |uuids| > 127 {
        return TooLong(needed, bytes.Length);
      }
      outcome := Structure(adType, []);
      if outcome.TooLong? {
        return;
      }
      EmptyStructure(old(AsBytes()), adType, AsBytes());
      hide Flatten, Encoded, OutcomeOf, Lists;
      ghost var start := old(AsBytes()) + [2 * |uuids| + 1, adType];
      assert bytes[len - 2] == AsBytes()[len - 2] == 1;
      bytes[len - 2] := bytes[len - 2] + 2 * |uuids|;
      assert bytes[..len] == start;
      AppendUuids(uuids);
      Completed(old(AsBytes()), adType, UuidBytes(uuids));
      ListBytes(old(AsBytes()), adType, uuids, AsBytes());
    }

    /** Copy each UUID behind the data. */
    method AppendUuids(uuids: seq<u16>)
      requires Valid() && len + 2 * |uuids| <= bytes.Length
      modifies this`len, bytes
      ensures Valid() && AsBytes() == old(AsBytes()) + UuidBytes(uuids)
    {
      ghost var start := AsBytes();
      for i := 0 to |uuids|
        invariant len == |start| + 2 * i
        invariant bytes[..len] == start + UuidBytes(uuids[..i])
      {
        hide *;
        UuidNext(start, uuids, i);
        CopyFromSlice(bytes, len, ToLe(uuids[i], 2));
        len := len + 2;
      }
      assert uuids[..|uuids|] == uuids;
    }

    // ----- typed structures

    method Flags(bits: byte) returns (outcome: Outcome)
      requires Valid()
      modifies this, bytes
      ensures Valid()
      ensures outcome == OutcomeOf(old(len), bytes.Length, 1)
      ensures outcome.Appended? ==> AsBytes() == old(AsBytes()) + [2, 0x01, bits]
      ensures outcome.TooLong? ==> AsBytes() == old(AsBytes())
    {
      One([bits]);
      outcome := Structure(FLAGS, [[bits]]);
    }

    method LocalName(name: seq<byte>, complete: bool) returns (outcome: Outcome)
      requires Valid()
      modifies this, bytes
      ensures Valid()
      ensures outcome == OutcomeOf(old(len), bytes.Length, |name|)
      ensures outcome.Appended? ==>
                AsBytes() == old(AsBytes())
                             + Encoded(AdStructure(if complete then 0x09 else 0x08, name))
      ensures outcome.TooLong? ==> AsBytes() == old(AsBytes())
    {
      One(name);
      outcome := Structure(if complete then COMPLETE_LOCAL_NAME else SHORTENED_LOCAL_NAME, [name]);
    }

    /** The intervals, in the order the structure gives them: the smaller first. */
    method PeripheralConnIntervalRange(min: u16, max: u16) returns (outcome: Outcome)
      requires Valid()
      modifies this, bytes
      ensures Valid()
      ensures outcome == OutcomeOf(old(len), bytes.Length, 4)
      ensures outcome.Appended? ==>
                AsBytes() == old(AsBytes()) + Encoded(AdStructure(0x12, [min % 256, min / 256, max % 256, max / 256]))
      ensures outcome.TooLong? ==> AsBytes() == old(AsBytes())
    {
      Two(ToLe(min, 2), ToLe(max, 2));
      TwoBytes(min);
      TwoBytes(max);
      outcome := Structure(CONN_INTERVAL_RANGE, [ToLe(min, 2), ToLe(max, 2)]);
    }

    /** Data after a 16-bit UUID or company identifier. */
    method Identified(adType: byte, identifier: u16, data: seq<byte>) returns (outcome: Outcome)
      requires Valid()
      modifies this, bytes
      ensures Valid()
      ensures outcome == OutcomeOf(old(len), bytes.Length, 2 + |data|)
      ensures outcome.Appended? ==>
                AsBytes() == old(AsBytes()) + Encoded(AdStructure(adType, [identifier % 256, identifier / 256] + data))
      ensures outcome.TooLong? ==> AsBytes() == old(AsBytes())
    {
      Two(ToLe(identifier, 2), data);
      TwoBytes(identifier);
      outcome := Structure(adType, [ToLe(identifier, 2), data]);
    }
  }

  lemma {:induction false} TwoBytes(n: u16)
    ensures ToLe(n, 2) == [n % 256, n / 256]
  {
    assert ToLe(n / 256, 1) == [n / 256] + ToLe(0, 0);
  }

  lemma {:induction false} UuidAt(uuids: seq<u16>, i: nat)
    requires i < |uuids|
    ensures UuidBytes(uuids)[2 * i] == uuids[i] % 256 && UuidBytes(uuids)[2 * i + 1] == uuids[i] / 256
  {
    var last := |uuids| - 1;
    TwoBytes(uuids[last]);
    if i < last {
      UuidAt(uuids[..last], i);
    }
  }

  lemma {:induction false} ListBytes(before: seq<byte>, adType: byte, uuids: seq<u16>, after: seq<byte>)
    requires |uuids| <= 127 && after == before + Encoded(AdStructure(adType, UuidBytes(uuids)))
    ensures Lists(before, adType, uuids, after)
  {
    forall i | 0 <= i < |uuids|
      ensures after[|before| + 2 + 2 * i] == uuids[i] % 256 && after[|before| + 3 + 2 * i] == uuids[i] / 256
    {
      UuidAt(uuids, i);
    }
  }

  lemma {:induction false} One(part: seq<byte>)
    ensures Flatten([part]) == part
  {
    assert [part][..0] == [];
  }

  lemma {:induction false} Two(a: seq<byte>, b: seq<byte>)
    ensures Flatten([a, b]) == a + b
  {
    One(a);
    assert [a, b][..1] == [a];
  }

  lemma {:induction false} FlattenNext(parts: seq<seq<byte>>, i: nat)
    requires i < |parts|
    ensures Flatten(parts[..i + 1]) == Flatten(parts[..i]) + parts[i]
  {
    assert parts[..i + 1][..i] == parts[..i];
  }

  lemma {:induction false} PrefixFits(parts: seq<seq<byte>>, i: nat)
    requires i <= |parts|
    ensures |Flatten(parts[..i])| <= |Flatten(parts)|
    decreases |parts| - i
  {
    if i < |parts| {
      FlattenNext(parts, i);
      PrefixFits(parts, i + 1);
    } else {
      assert parts[..i] == parts;
    }
  }

  lemma {:induction false} PartNext(start: seq<byte>, parts: seq<seq<byte>>, i: nat)
    requires i < |parts|
    ensures start + Flatten(parts[..i + 1]) == (start + Flatten(parts[..i])) + parts[i]
    ensures |Flatten(parts[..i + 1])| == |Flatten(parts[..i])| + |parts[i]|
  {
    FlattenNext(parts, i);
    Regroup(start, Flatten(parts[..i]), parts[i]);
  }

  lemma {:induction false} UuidNext(start: seq<byte>, uuids: seq<u16>, i: nat)
    requires i < |uuids|
    ensures start + UuidBytes(uuids[..i + 1]) == (start + UuidBytes(uuids[..i])) + ToLe(uuids[i], 2)
  {
    assert uuids[..i + 1][..i] == uuids[..i];
    Regroup(start, UuidBytes(uuids[..i]), ToLe(uuids[i], 2));
  }

  lemma {:induction false} EmptyStructure(before: seq<byte>, adType: byte, after: seq<byte>)
    requires after == before + Encoded(AdStructure(adType, Flatten([])))
    ensures after == before + [1, adType]
  {
  }

  lemma {:induction false} Completed(before: seq<byte>, adType: byte, data: seq<byte>)
    requires |data| <= 254
    ensures before + [|data| + 1, adType] + data == before + Encoded(AdStructure(adType, data))
  {
  }

  lemma {:induction false} Started(parts: seq<seq<byte>>, start: seq<byte>, written: seq<byte>)
    requires written == start
    ensures written == start + Flatten(parts[..0])
  {
  }

  // ----- the data is its structures

  /** A structure is read off the front. */
  lemma {:induction false} ParseFirst(structure: AdStructure, rest: seq<byte>)
    requires |structure.data| <= 254
    ensures Parse(Encoded(structure) + rest) ==
            if Parse(rest).Some? then Some([structure] + Parse(rest).value) else None
  {
    var all := Encoded(structure) + rest;
    var length: nat := all[0];
    assert all[1 + length..] == rest && all[2..1 + length] == structure.data;
  }

  /** Data that reads as structures begins with its first one. */
  lemma {:induction false} FirstOf(bytes: seq<byte>) returns (structure: AdStructure, rest: seq<byte>)
    requires Parse(bytes).Some? && bytes != []
    ensures |structure.data| <= 254 && bytes == Encoded(structure) + rest && |rest| < |bytes|
    ensures Parse(rest).Some? && Parse(bytes) == Some([structure] + Parse(rest).value)
  {
    var length: nat := bytes[0];
    structure, rest := AdStructure(bytes[1], bytes[2..1 + length]), bytes[1 + length..];
  }

  lemma {:induction false} ParseAppended(bytes: seq<byte>, structure: AdStructure)
    requires Parse(bytes).Some? && |structure.data| <= 254
    ensures Parse(bytes + Encoded(structure)) == Some(Parse(bytes).value + [structure])
    decreases |bytes|
  {
    if bytes == [] {
      assert bytes + Encoded(structure) == Encoded(structure) + [];
      ParseFirst(structure, []);
      assert [structure] + [] == [] + [structure];
    } else {
      hide *;
      var first, rest := FirstOf(bytes);
      ParseAppended(rest, structure);
      ParseFirst(first, rest + Encoded(structure));
      Regroup(Encoded(first), rest, Encoded(structure));
      assert [first] + (Parse(rest).value + [structure]) == ([first] + Parse(rest).value) + [structure];
    }
  }

  /** The bytes of any structures appended read back as those structures, in order. */
  lemma {:induction false} EncodedParses(structures: seq<AdStructure>)
    requires Encodable(structures)
    ensures Parse(EncodeAll(structures)) == Some(structures)
  {
    if structures != [] {
      var last := |structures| - 1;
      EncodedParses(structures[..last]);
      ParseAppended(EncodeAll(structures[..last]), structures[last]);
      assert structures == structures[..last] + [structures[last]];
    }
  }

  lemma {:induction false} EncodeAppend(structures: seq<AdStructure>, structure: AdStructure)
    requires Encodable(structures) && |structure.data| <= 254
    ensures Encodable(structures + [structure])
    ensures EncodeAll(structures + [structure]) == EncodeAll(structures) + Encoded(structure)
  {
    assert (structures + [structure])[..|structures|] == structures;
  }

  lemma {:induction false} EncodePrepend(structure: AdStructure, rest: seq<AdStructure>)
    requires |structure.data| <= 254 && Encodable(rest)
    ensures Encodable([structure] + rest) && EncodeAll([structure] + rest) == Encoded(structure) + EncodeAll(rest)
  {
    if rest == [] {
      EncodeAppend([], structure);
      assert [structure] + rest == [] + [structure];
    } else {
      var last := |rest| - 1;
      EncodePrepend(structure, rest[..last]);
      EncodeAppend([structure] + rest[..last], rest[last]);
      EncodeAppend(rest[..last], rest[last]);
      hide *;
      Regroup(Encoded(structure), EncodeAll(rest[..last]), Encoded(rest[last]));
      assert rest == rest[..last] + [rest[last]];
      assert [structure] + rest == [structure] + rest[..last] + [rest[last]];
    }
  }

  /** Data that reads as structures is what those structures encode to: nothing else is in it. */
  lemma {:induction false} ParsedEncodes(bytes: seq<byte>)
    requires Parse(bytes).Some?
    ensures Encodable(Parse(bytes).value) && EncodeAll(Parse(bytes).value) == bytes
    decreases |bytes|
  {
    if bytes != [] {
      hide Parse, Encoded, EncodeAll;
      var first, rest := FirstOf(bytes);
      ParsedEncodes(rest);
      EncodePrepend(first, Parse(rest).value);
    }
  }

  /** Whatever was appended before, a structure appended is read after it, with earlier ones
      unchanged; and nothing changes where it does not fit. */
  method AppendReads(data: AdvData, adType: byte, parts: seq<seq<byte>>) returns (outcome: Outcome)
    requires data.Valid() && Parse(data.AsBytes()).Some?
    modifies data, data.bytes
    ensures data.Valid()
    ensures Parse(data.AsBytes()) ==
            if outcome.Appended? then Some(Parse(old(data.AsBytes())).value + [AdStructure(adType, Flatten(parts))])
            else old(Parse(data.AsBytes()))
  {
    ghost var before := data.AsBytes();
    outcome := data.Structure(adType, parts);
    if outcome.Appended? {
      ParseAppended(before, AdStructure(adType, Flatten(parts)));
    }
  }

  /** A list of UUIDs appended in place and one appended as bytes give the same data, or the
      same error. */
  method ListsAgree(a: AdvData, b: AdvData, adType: byte, uuids: seq<u16>)
    requires a.Valid() && b.Valid() && a != b && a.bytes != b.bytes
    requires a.bytes.Length == b.bytes.Length && a.AsBytes() == b.AsBytes()
    modifies a, a.bytes, b, b.bytes
    ensures a.Valid() && b.Valid() && a.AsBytes() == b.AsBytes()
  {
    assert a.len == |a.AsBytes()| == |b.AsBytes()| == b.len;
    One(UuidBytes(uuids));
    var x := a.Uuid16List(adType, uuids);
    var y := b.Structure(adType, [UuidBytes(uuids)]);
    assert x == y;
  }

  /** The local name as some commands take it: its type, then the name, without a length. */
  method LocalNameStructure(name: seq<byte>, complete: bool, capacity: nat) returns (data: AdvData?, outcome: Outcome)
    ensures outcome == if 1 + |name| > capacity then TooLong(1 + |name|, capacity) else Appended
    ensures outcome.Appended? <==> data != null
    ensures data != null ==>
              fresh(data) && data.Valid() && data.bytes.Length == capacity
              && data.AsBytes() == [if complete then 0x09 else 0x08] + name
  {
    var needed := 1 + |name|;
    if needed > capacity {
      return null, TooLong(needed, capacity);
    }
    data := new AdvData(capacity);
    data.bytes[0] := if complete then COMPLETE_LOCAL_NAME else SHORTENED_LOCAL_NAME;
    assert data.bytes[..1] == [data.bytes[0]];
    CopyFromSlice(data.bytes, 1, name);
    data.len := needed;
    outcome := Appended;
  }
}

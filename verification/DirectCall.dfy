/** Calling a stack function directly: the parameters are encoded into a buffer sized by
    the envelope and read back member by member as the function's arguments
    (crates/stm32wb-hci/src/direct.rs, crates/stm32wb-hci-macros/src/direct.rs). */
module DirectCall {
  import opened Options
  import opened Bytes
  import opened Layout
  import opened Plan
  import opened Encoder
  import opened Constructor

  /** An argument of the stack function: an integer, or what a pointer points to. */
  datatype Arg = Integral(n: int) | Array(items: seq<Item>) | Buffer(bytes: seq<byte>)

  /** What was read, and the bytes left. */
  datatype Step<T> = Step(value: T, rest: seq<byte>)

  // ----- the reader

  class Reader {
    const buffer: array<byte>
    const end: nat
    var at: nat

    ghost predicate Valid()
      reads this
    {
      at <= end <= buffer.Length
    }

    ghost function Rest(): seq<byte>
      requires Valid()
      reads this, buffer
    {
      buffer[at..end]
    }

    constructor (buffer: array<byte>, end: nat)
      requires end <= buffer.Length
      ensures Valid() && at == 0 && this.buffer == buffer && this.end == end
    {
      this.buffer, this.end, this.at := buffer, end, 0;
    }

    /** The next `len` bytes. */
    method Take(len: nat) returns (taken: Option<seq<byte>>)
      requires Valid()
      modifies this`at
      ensures Valid()
      ensures taken.None? <==> len > |old(Rest())|
      ensures taken.None? ==> Rest() == old(Rest())
      ensures taken.Some? ==> |taken.value| == len && taken.value + Rest() == old(Rest())
    {
      if len > end - at {
        return None;
      }
      taken := Some(buffer[at..at + len]);
      at := at + len;
    }
  }

  /** Encode the parameters into `buffer` and read them from its start. */
  method NewReader(buffer: array<byte>, slots: seq<Slot>, values: seq<Value>) returns (reader: Reader?)
    requires Conforms(slots, values)
    modifies buffer
    ensures reader == null <==> Size(slots, values) > buffer.Length
    ensures reader != null ==> fresh(reader) && reader.Valid() && reader.buffer == buffer
    ensures reader != null ==> reader.Rest() == Encode(slots, values)
  {
    var len := Size(slots, values);
    SizeIsLength(slots, values, 0);
    if len > buffer.Length {
      return null;
    }
    var sink := new Sink(buffer, len);
    var ok := WriteHci(slots, values, sink);
    if !ok {
      return null;
    }
    reader := new Reader(buffer, len);
  }

  // ----- what the reads give

  /** The first `n` elements of `bytes`. */
  function Split(shape: Shape, bytes: seq<byte>, n: nat): (items: seq<Item>)
    requires |bytes| == n * shape.Width()
    ensures |items| == n
    decreases n
  {
    if n == 0 then [] else
    SplitOff(n, shape.Width());
    [shape.Decode(bytes[..shape.Width()])] + Split(shape, bytes[shape.Width()..], n - 1)
  }

  lemma {:induction false} SplitOff(n: nat, width: nat)
    requires n > 0
    ensures n * width == width + (n - 1) * width
  {
  }

  lemma {:induction false} OneMore(n: nat, width: nat)
    ensures (n + 1) * width == n * width + width
  {
  }

  lemma {:induction false} SplitFirst(shape: Shape, bytes: seq<byte>, n: nat)
    requires n > 0 && |bytes| == n * shape.Width()
    ensures shape.Width() <= |bytes| && |bytes[shape.Width()..]| == (n - 1) * shape.Width()
    ensures Split(shape, bytes, n) == [shape.Decode(bytes[..shape.Width()])] + Split(shape, bytes[shape.Width()..], n - 1)
  {
    SplitOff(n, shape.Width());
  }

  lemma {:induction false} ElementInside(n: nat, i: nat, width: nat)
    requires i < n
    ensures 0 <= i * width <= (i + 1) * width <= n * width
    ensures (i + 1) * width == i * width + width
  {
    OneMore(i, width);
    ProductGrows(i + 1, n, width);
  }

  /** Element `i` of `bytes`, as `d::element` copies it. */
  lemma {:induction false} SplitAt(shape: Shape, bytes: seq<byte>, n: nat, i: nat)
    requires |bytes| == n * shape.Width() && i < n
    ensures 0 <= i * shape.Width() <= (i + 1) * shape.Width() <= |bytes|
    ensures Split(shape, bytes, n)[i] == shape.Decode(bytes[i * shape.Width()..(i + 1) * shape.Width()])
    decreases i
  {
    hide *;
    var width := shape.Width();
    ElementInside(n, i, width);
    SplitFirst(shape, bytes, n);
    if i == 0 {
      assert bytes[0..width] == bytes[..width];
    } else {
      SplitAt(shape, bytes[width..], n - 1, i - 1);
      ElementInside(n - 1, i - 1, width);
      var low, high := (i - 1) * width, i * width;
      assert high == low + width && (i + 1) * width == high + width;
      assert bytes[width..][low..high] == bytes[high..high + width];
    }
  }

  function TakeFrom(rest: seq<byte>, len: nat): Option<Step<seq<byte>>> {
    if len > |rest| then None else Some(Step(rest[..len], rest[len..]))
  }

  function TakeItems(shape: Option<Shape>, n: nat, rest: seq<byte>): Option<Step<Arg>> {
    if shape.None? then None else
    var taken := TakeFrom(rest, n * shape.value.Width());
    if taken.None? then None else
    Some(Step(Array(Split(shape.value, taken.value.value, n)), taken.value.rest))
  }

  /** The argument read for one member, given the integer members read before it. */
  function ReadMember(structs: Structs, ty: FieldType, known: map<string, int>, rest: seq<byte>): Option<Step<Arg>>
    requires Acyclic(structs)
  {
    match ty
    case ScalarField(scalar) =>
      var taken := TakeFrom(rest, scalar.Width());
      if taken.None? then None else
      Some(Step(Integral(scalar.Decode(taken.value.value)), taken.value.rest))
    case StructField(name) =>
      var width := StructWidth(structs, name);
      if width.None? then None else
      var taken := TakeFrom(rest, width.value);
      if taken.None? then None else
      Some(Step(Buffer(taken.value.value), taken.value.rest))
    case ArrayField(element, len) =>
      TakeItems(ShapeOf(structs, element), len, rest)
    case CountedField(element, count, capacity) =>
      if count in known && 0 <= known[count] <= capacity
      then TakeItems(ShapeOf(structs, element), known[count], rest)
      else None
    case UnionField(selector, variants) =>
      if !(selector in known && 0 <= known[selector] < 0x1_0000_0000_0000_0000) then None else
      var width := WidthFor(variants, known[selector]);
      if width.None? then None else
      var taken := TakeFrom(rest, width.value);
      if taken.None? then None else
      Some(Step(Buffer(taken.value.value), taken.value.rest))
    case OptionalField(_) => None
  }

  /** The integer members read so far, after one more. */
  function Learn(known: map<string, int>, field: Field, arg: Arg): map<string, int> {
    if field.ty.ScalarField? && arg.Integral? then known[field.name := arg.n] else known
  }

  /** The arguments read for the members from the `k`th. */
  function ReadFrom(structs: Structs, fields: seq<Field>, k: nat, known: map<string, int>, rest: seq<byte>):
    (read: Option<Step<seq<Arg>>>)
    requires Acyclic(structs) && k <= |fields|
    ensures read.Some? ==> |read.value.value| == |fields| - k
    decreases |fields| - k
  {
    if k == |fields| then Some(Step([], rest)) else
    var first := ReadMember(structs, fields[k].ty, known, rest);
    if first.None? then None else
    var others := ReadFrom(structs, fields, k + 1, Learn(known, fields[k], first.value.value), first.value.rest);
    if others.None? then None else
    Some(Step([first.value.value] + others.value.value, others.value.rest))
  }

  // ----- the generated reads

  /** Read `n` elements; wider integers are copied out one by one into room for
      `room` of them. */
  method ReadItems(shape: Shape, n: nat, room: nat, reader: Reader) returns (items: Option<seq<Item>>)
    requires reader.Valid() && n <= room
    modifies reader`at
    ensures reader.Valid()
    ensures items.None? <==> TakeItems(Some(shape), n, old(reader.Rest())).None?
    ensures items.Some? ==>
              TakeItems(Some(shape), n, old(reader.Rest())) == Some(Step(Array(items.value), reader.Rest()))
  {
    var bytes := reader.Take(n * shape.Width());
    if bytes.None? {
      return None;
    }
    assert old(reader.Rest())[..|bytes.value|] == bytes.value;
    assert old(reader.Rest())[|bytes.value|..] == reader.Rest();
    if shape.Struct? || shape.Width() == 1 {
      return Some(Split(shape, bytes.value, n));
    }
    var width := shape.Width();
    var copy := new Item[room](_ => Number(0));
    for i := 0 to n
      modifies copy
      invariant forall j | 0 <= j < i :: copy[j] == Split(shape, bytes.value, n)[j]
    {
      SplitAt(shape, bytes.value, n, i);
      copy[i] := shape.Decode(bytes.value[i * width..(i + 1) * width]);
    }
    assert copy[..n] == Split(shape, bytes.value, n);
    return Some(copy[..n]);
  }

  /** The generated read of one member. */
  method ReadOne(structs: Structs, ty: FieldType, known: map<string, int>, reader: Reader) returns (arg: Option<Arg>)
    requires Acyclic(structs) && reader.Valid()
    modifies reader`at
    ensures reader.Valid()
    ensures arg.None? <==> ReadMember(structs, ty, known, old(reader.Rest())).None?
    ensures arg.Some? ==>
              ReadMember(structs, ty, known, old(reader.Rest())) == Some(Step(arg.value, reader.Rest()))
  {
    match ty {
      case ScalarField(scalar) =>
        var bytes := TakeExactly(scalar.Width(), reader);
        arg := if bytes.Some? then Some(Integral(scalar.Decode(bytes.value))) else None;
      case StructField(name) =>
        var width := ComputeStructWidth(structs, name);
        if width.None? { return None; }
        var bytes := TakeExactly(width.value, reader);
        arg := if bytes.Some? then Some(Buffer(bytes.value)) else None;
      case ArrayField(element, len) =>
        var shape := ShapeOf(structs, element);
        if shape.None? { return None; }
        var items := ReadItems(shape.value, len, len, reader);
        arg := if items.Some? then Some(Array(items.value)) else None;
      case CountedField(element, count, capacity) =>
        if count !in known || !(0 <= known[count] <= capacity) { return None; }
        var shape := ShapeOf(structs, element);
        if shape.None? { return None; }
        var items := ReadItems(shape.value, known[count], capacity, reader);
        arg := if items.Some? then Some(Array(items.value)) else None;
      case UnionField(selector, variants) =>
        if selector !in known || !(0 <= known[selector] < 0x1_0000_0000_0000_0000) { return None; }
        var width := WidthFor(variants, known[selector]);
        if width.None? { return None; }
        var bytes := TakeExactly(width.value, reader);
        arg := if bytes.Some? then Some(Buffer(bytes.value)) else None;
      case OptionalField(_) =>
        return None;
    }
  }

  method TakeExactly(len: nat, reader: Reader) returns (bytes: Option<seq<byte>>)
    requires reader.Valid()
    modifies reader`at
    ensures reader.Valid()
    ensures bytes.None? <==> TakeFrom(old(reader.Rest()), len).None?
    ensures bytes.Some? ==> TakeFrom(old(reader.Rest()), len) == Some(Step(bytes.value, reader.Rest()))
  {
    bytes := reader.Take(len);
    if bytes.Some? {
      assert old(reader.Rest())[..len] == bytes.value;
      assert old(reader.Rest())[len..] == reader.Rest();
    }
  }

  /** The generated reads of every member, and the check that nothing is left. */
  method ReadArguments(structs: Structs, fields: seq<Field>, reader: Reader) returns (args: Option<seq<Arg>>)
    requires Acyclic(structs) && reader.Valid()
    modifies reader`at
    ensures args.Some? <==>
              var read := ReadFrom(structs, fields, 0, map[], old(reader.Rest()));
              read.Some? && read.value.rest == []
    ensures args.Some? ==>
              ReadFrom(structs, fields, 0, map[], old(reader.Rest())) == Some(Step(args.value, []))
  {
    ghost var all := ReadFrom(structs, fields, 0, map[], reader.Rest());
    var known: map<string, int> := map[];
    var read: seq<Arg> := [];
    PrependNothing(all);
    for k := 0 to |fields|
      invariant reader.Valid()
      invariant all == Prepend(read, ReadFrom(structs, fields, k, known, reader.Rest()))
    {
      hide ReadFrom, ReadMember, Learn, Prepend, Acyclic;
      PrependStep(structs, fields, k, known, reader.Rest(), read);
      var arg := ReadOne(structs, fields[k].ty, known, reader);
      if arg.None? {
        return None;
      }
      known := Learn(known, fields[k], arg.value);
      read := read + [arg.value];
    }
    ReadEnd(structs, fields, known, reader.Rest(), read);
    if reader.at != reader.end {
      return None;
    }
    return Some(read);
  }

  lemma {:induction false} PrependNothing(read: Option<Step<seq<Arg>>>)
    ensures Prepend([], read) == read
  {
    if read.Some? {
      assert [] + read.value.value == read.value.value;
    }
  }

  lemma {:induction false} ReadEnd(structs: Structs, fields: seq<Field>, known: map<string, int>, rest: seq<byte>,
                                   read: seq<Arg>)
    requires Acyclic(structs)
    ensures Prepend(read, ReadFrom(structs, fields, |fields|, known, rest)) == Some(Step(read, rest))
  {
    assert read + [] == read;
  }

  lemma {:induction false} PrependStep(structs: Structs, fields: seq<Field>, k: nat, known: map<string, int>,
                                       rest: seq<byte>, read: seq<Arg>)
    requires Acyclic(structs) && k < |fields|
    ensures var first := ReadMember(structs, fields[k].ty, known, rest);
            Prepend(read, ReadFrom(structs, fields, k, known, rest)) ==
            if first.None? then None else
            Prepend(read + [first.value.value],
                    ReadFrom(structs, fields, k + 1, Learn(known, fields[k], first.value.value), first.value.rest))
  {
    var first := ReadMember(structs, fields[k].ty, known, rest);
    if first.Some? {
      var others := ReadFrom(structs, fields, k + 1, Learn(known, fields[k], first.value.value), first.value.rest);
      if others.Some? {
        assert read + ([first.value.value] + others.value.value) == read + [first.value.value] + others.value.value;
      }
    }
  }

  ghost function Prepend(args: seq<Arg>, read: Option<Step<seq<Arg>>>): Option<Step<seq<Arg>>> {
    if read.None? then None else Some(Step(args + read.value.value, read.value.rest))
  }
}

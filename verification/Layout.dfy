/** Wire layouts: members, packed structures, their widths, and the size envelope
    (crates/stm32wb-catalog/src/layout.rs). */
module Layout {
  import opened Options
  import opened Arithmetic
  import opened Bytes

  type u16 = n: nat | n < 0x1_0000
  type u64 = n: nat | n < 0x1_0000_0000_0000_0000

  datatype Scalar = U8 | U16 | U32 | U64 | I8 | I16 | I32 | I64 {
    function Width(): nat {
      match this
      case U8 | I8 => 1
      case U16 | I16 => 2
      case U32 | I32 => 4
      case U64 | I64 => 8
    }

    predicate IsSigned() {
      I8? || I16? || I32? || I64?
    }

    /** Whether the integer type holds `n`. */
    predicate Holds(n: int) {
      if IsSigned() then -Power(Width()) <= 2 * n < Power(Width()) else 0 <= n < Power(Width())
    }

    /** `n` in two's complement, least significant byte first. */
    function Encode(n: int): (bytes: seq<byte>)
      ensures |bytes| == Width()
    {
      ToLe(if n >= 0 then n else n % Power(Width()), Width())
    }

    function Decode(bytes: seq<byte>): int {
      var n := FromLe(bytes);
      if IsSigned() && 2 * n >= Power(Width()) then n - Power(Width()) else n
    }
  }

  lemma {:induction false} ScalarRoundTrips(scalar: Scalar, n: int)
    requires scalar.Holds(n)
    ensures scalar.Decode(scalar.Encode(n)) == n
  {
    PowersOfTheScalars();
    var power := Power(scalar.Width());
    var unsigned := if n >= 0 then n else n % power;
    assert n < 0 ==> unsigned == n + power by {
      if n < 0 {
        WrapOnce(n, power);
      }
    }
    FromToLe(unsigned, scalar.Width());
  }

  lemma {:induction false} ScalarBytesRoundTrip(scalar: Scalar, bytes: seq<byte>)
    requires |bytes| == scalar.Width()
    ensures scalar.Holds(scalar.Decode(bytes))
    ensures scalar.Encode(scalar.Decode(bytes)) == bytes
  {
    PowersOfTheScalars();
    ToFromLe(bytes);
    var power := Power(scalar.Width());
    var n := scalar.Decode(bytes);
    if n < 0 {
      WrapOnce(n, power);
    }
  }

  lemma {:induction false} WrapOnce(n: int, power: int)
    requires -power <= n < 0
    ensures n % power == n + power
  {
    assert n == -1 * power + (n + power);
  }

  /** How wide each type is, and which integers it holds. */
  lemma {:induction false} ScalarRanges(n: int)
    ensures U8.Width() == I8.Width() == 1 && U16.Width() == I16.Width() == 2
    ensures U32.Width() == I32.Width() == 4 && U64.Width() == I64.Width() == 8
    ensures U8.Holds(n) <==> 0 <= n <= 255
    ensures I8.Holds(n) <==> -128 <= n <= 127
    ensures U16.Holds(n) <==> 0 <= n <= 65535
    ensures I16.Holds(n) <==> -32768 <= n <= 32767
    ensures U32.Holds(n) <==> 0 <= n < 0x1_0000_0000
    ensures I32.Holds(n) <==> -0x8000_0000 <= n < 0x8000_0000
    ensures U64.Holds(n) <==> 0 <= n < 0x1_0000_0000_0000_0000
    ensures I64.Holds(n) <==> -0x8000_0000_0000_0000 <= n < 0x8000_0000_0000_0000
  {
    PowersOfTheScalars();
  }

  lemma {:induction false} SameLowByte(n: int, q: int, m: nat, low: int, high: int)
    requires low > 0 && high > 0 && n == q * (low * (256 * high)) + m
    ensures n / low % 256 == m / low % 256
  {
    var t := q * high;
    assert q * (low * (256 * high)) == (256 * t) * low;
    Quotients(n, low, 256 * t + m / low, m % low);
    assert (256 * t + m / low) % 256 == m / low % 256;
  }

  lemma {:induction false} ByteModulo(n: int, width: nat, i: nat)
    requires i < width
    ensures n % Power(width) / Power(i) % 256 == n / Power(i) % 256
  {
    PowerSplits(i, width - i);
    var low, high := Power(i), Power(width - i - 1);
    assert Power(width) == low * (256 * high);
    hide Power;
    Division(n, Power(width));
    SameLowByte(n, n / Power(width), n % Power(width), low, high);
  }

  lemma {:induction false} Division(n: int, d: int)
    requires d > 0
    ensures n == n / d * d + n % d && n % d >= 0
  {
  }

  /** Byte `i` of an encoded integer, negative ones in two's complement, counts multiples
      of 256 to the `i`: the least significant byte comes first. */
  lemma {:induction false} EncodedLeastFirst(scalar: Scalar, n: int, i: nat)
    requires i < scalar.Width()
    ensures scalar.Encode(n)[i] == n / Power(i) % 256
  {
    var width := scalar.Width();
    LeastFirst(if n >= 0 then n else n % Power(width), width, i);
    ByteModulo(n, width, i);
    hide Power;
  }

  /** A negative integer is decoded where the highest bit is set. */
  lemma {:induction false} DecodedLeastFirst(scalar: Scalar, bytes: seq<byte>)
    requires |bytes| == scalar.Width()
    ensures scalar.Decode(bytes) ==
            Weighted(bytes, |bytes|) - if scalar.IsSigned() && bytes[|bytes| - 1] >= 128 then Power(|bytes|) else 0
  {
    LeastFirstSum(bytes);
    var k := |bytes| - 1;
    WeightedBound(bytes, k);
    var top := bytes[k];
    assert Power(|bytes|) == 256 * Power(k);
    assert Weighted(bytes, |bytes|) == Weighted(bytes, k) + top * Power(k);
    if top >= 128 {
      Within(128, top, Power(k));
    } else {
      Within(top, 127, Power(k));
    }
  }

  datatype Element = IntegerElement(scalar: Scalar) | StructElement(name: string)

  /** One alternative of a union; `None` is every selector value not listed. */
  datatype Variant = Variant(tag: Option<u64>, width: u16)

  datatype FieldType =
    | ScalarField(scalar: Scalar)
    | StructField(name: string)
    | ArrayField(element: Element, len: u16)
    | CountedField(element: Element, count: string, capacity: u16)
    | UnionField(selector: string, variants: seq<Variant>)
    | OptionalField(optional: Scalar)
  {
    /** The structure a member of this type holds, directly or as its elements. */
    function Structure(): Option<string> {
      match this
      case StructField(name) => Some(name)
      case ArrayField(StructElement(name), _) => Some(name)
      case CountedField(StructElement(name), _, _) => Some(name)
      case _ => None
    }

    /** The earlier member this one's count or selector is. */
    function Reference(): Option<string> {
      match this
      case CountedField(_, count, _) => Some(count)
      case UnionField(selector, _) => Some(selector)
      case _ => None
    }
  }

  datatype Field = Field(name: string, ty: FieldType)

  type Structs = map<string, seq<Field>>

  // ----- structure widths

  /** `rank` decreases from every structure to the structures it holds, except to
      itself as a direct member, which `StructWidth` rejects without recursing. */
  ghost predicate Ranks(structs: Structs, rank: map<string, nat>) {
    && structs.Keys <= rank.Keys
    && forall name, k | name in structs && 0 <= k < |structs[name]| ::
         HoldsLower(structs, rank, name, structs[name][k].ty)
  }

  ghost predicate HoldsLower(structs: Structs, rank: map<string, nat>, name: string, ty: FieldType)
    requires name in structs && structs.Keys <= rank.Keys
  {
    ty == StructField(name) ||
    match ty.Structure()
    case Some(inner) => inner in structs ==> rank[inner] < rank[name]
    case None => true
  }

  /** No structure holds itself through others: the recursion over the table ends. */
  ghost predicate Acyclic(structs: Structs) {
    exists rank :: Ranks(structs, rank)
  }

  ghost function RankOf(structs: Structs): (rank: map<string, nat>)
    requires Acyclic(structs)
    ensures Ranks(structs, rank)
  {
    var rank :| Ranks(structs, rank);
    rank
  }

  ghost function Height(structs: Structs, name: string): nat
    requires Acyclic(structs)
  {
    if name in structs then RankOf(structs)[name] + 1 else 0
  }

  function CheckedAdd(left: Option<u16>, right: Option<u16>): Option<u16> {
    if left.Some? && right.Some? && left.value + right.value < 0x1_0000
    then Some(left.value + right.value)
    else None
  }

  function CheckedMul(left: Option<u16>, right: u16): Option<u16> {
    if left.Some? && left.value * right < 0x1_0000 then Some(left.value * right) else None
  }

  /** Fixed width of a structure; undefined for a variable part, an undefined
      structure, or more bytes than 16 bits count. */
  function StructWidth(structs: Structs, name: string): Option<u16>
    requires Acyclic(structs)
    decreases Height(structs, name), 1, 0
  {
    if name in structs then PrefixWidth(structs, name, |structs[name]|) else None
  }

  /** The width of the first `k` fields of the structure `name`. */
  function PrefixWidth(structs: Structs, name: string, k: nat): Option<u16>
    requires Acyclic(structs) && name in structs && k <= |structs[name]|
    decreases Height(structs, name), 0, k
  {
    if k == 0 then
      Some(0)
    else
      assert HoldsLower(structs, RankOf(structs), name, structs[name][k - 1].ty);
      var width := match structs[name][k - 1].ty
        case ScalarField(scalar) => Some(scalar.Width())
        case StructField(inner) => if inner == name then None else StructWidth(structs, inner)
        case ArrayField(IntegerElement(scalar), len) => CheckedMul(Some(scalar.Width()), len)
        case ArrayField(StructElement(inner), len) => CheckedMul(StructWidth(structs, inner), len)
        case _ => None;
      CheckedAdd(PrefixWidth(structs, name, k - 1), width)
  }

  function ElementWidth(structs: Structs, element: Element): Option<u16>
    requires Acyclic(structs)
  {
    match element
    case IntegerElement(scalar) => Some(scalar.Width())
    case StructElement(name) => StructWidth(structs, name)
  }

  lemma {:induction false} NoWidthExtends(structs: Structs, name: string, j: nat, k: nat)
    requires Acyclic(structs) && name in structs && j <= k <= |structs[name]|
    requires PrefixWidth(structs, name, j).None?
    ensures PrefixWidth(structs, name, k).None?
  {
    if j < k {
      NoWidthExtends(structs, name, j, k - 1);
    }
  }

  /** The loop adding up a structure's fields with checked 16-bit arithmetic. */
  method ComputeStructWidth(structs: Structs, name: string) returns (result: Option<u16>)
    requires Acyclic(structs)
    ensures result == StructWidth(structs, name)
    decreases Height(structs, name)
  {
    if name !in structs {
      return None;
    }
    var fields := structs[name];
    var width: u16 := 0;
    for k := 0 to |fields|
      invariant Some(width) == PrefixWidth(structs, name, k)
    {
      assert HoldsLower(structs, RankOf(structs), name, fields[k].ty);
      var fieldWidth: Option<u16> := None;
      match fields[k].ty {
        case ScalarField(scalar) =>
          fieldWidth := Some(scalar.Width());
        case StructField(inner) =>
          if inner != name {
            fieldWidth := ComputeStructWidth(structs, inner);
          }
        case ArrayField(IntegerElement(scalar), len) =>
          fieldWidth := CheckedMul(Some(scalar.Width()), len);
        case ArrayField(StructElement(inner), len) =>
          var elementWidth := ComputeStructWidth(structs, inner);
          fieldWidth := CheckedMul(elementWidth, len);
        case _ =>
      }
      if fieldWidth.None? || width + fieldWidth.value >= 0x1_0000 {
        NoWidthExtends(structs, name, k + 1, |fields|);
        return None;
      }
      width := width + fieldWidth.value;
    }
    return Some(width);
  }

  // ----- the size envelope

  datatype Envelope = Envelope(min: nat, max: nat)

  /** Some member before the `j`th is an unsigned integer called `name`. */
  predicate EarlierUnsigned(fields: seq<Field>, j: nat, name: string)
    requires j <= |fields|
  {
    exists i | 0 <= i < j ::
      fields[i].name == name && fields[i].ty.ScalarField? && !fields[i].ty.scalar.IsSigned()
  }

  predicate DistinctTags(variants: seq<Variant>) {
    forall i, j | 0 <= i < j < |variants| :: variants[i].tag != variants[j].tag
  }

  predicate ValidMember(structs: Structs, fields: seq<Field>, j: nat)
    requires Acyclic(structs) && j < |fields|
  {
    && (forall i | 0 <= i < j :: fields[i].name != fields[j].name)
    && (forall i | 0 <= i < j :: fields[i].ty.OptionalField? ==> fields[j].ty.OptionalField?)
    && (fields[j].ty.Reference().Some? ==> EarlierUnsigned(fields, j, fields[j].ty.Reference().value))
    && ValidType(structs, fields[j].ty)
  }

  predicate ValidType(structs: Structs, ty: FieldType)
    requires Acyclic(structs)
  {
    match ty
    case ScalarField(_) => true
    case StructField(name) => StructWidth(structs, name).Some?
    case ArrayField(element, _) => ElementWidth(structs, element).Some?
    case CountedField(element, _, _) => ElementWidth(structs, element).Some?
    case UnionField(_, variants) => variants != [] && DistinctTags(variants)
    case OptionalField(_) => true
  }

  /** What the catalog requires of a layout: distinct names, counts and selectors that
      are earlier unsigned integers, defined structures, and optional members last. */
  predicate ValidLayout(structs: Structs, fields: seq<Field>)
    requires Acyclic(structs)
  {
    forall j | 0 <= j < |fields| :: ValidMember(structs, fields, j)
  }

  /** The member a reference names is an earlier unsigned integer. */
  predicate NamesUnsigned(fields: seq<Field>, j: nat, name: string)
    requires j < |fields|
  {
    exists i | 0 <= i < j :: fields[i].name == name && fields[i].ty in UNSIGNED
  }

  predicate Sound(structs: Structs, fields: seq<Field>, j: nat)
    requires Acyclic(structs) && j < |fields|
  {
    match fields[j].ty
    case ScalarField(_) => true
    case OptionalField(_) => true
    case StructField(name) => StructWidth(structs, name).Some?
    case ArrayField(element, _) => element.StructElement? ==> StructWidth(structs, element.name).Some?
    case CountedField(element, count, _) =>
      (element.StructElement? ==> StructWidth(structs, element.name).Some?) && NamesUnsigned(fields, j, count)
    case UnionField(selector, variants) =>
      && NamesUnsigned(fields, j, selector) && variants != []
      && forall a, b | 0 <= a < b < |variants| :: variants[a].tag != variants[b].tag
  }

  /** The catalog accepts a layout exactly if its members have different names, those after an
      optional one are optional, counts and selectors are the names of earlier unsigned
      integers, every structure has a width, and unions have alternatives with different tags. */
  lemma {:induction false} ValidExactly(structs: Structs, fields: seq<Field>)
    requires Acyclic(structs)
    ensures ValidLayout(structs, fields) <==>
            && (forall i, j | 0 <= i < j < |fields| :: fields[i].name != fields[j].name)
            && (forall i, j | 0 <= i < j < |fields| && fields[i].ty.OptionalField? :: fields[j].ty.OptionalField?)
            && forall j | 0 <= j < |fields| :: Sound(structs, fields, j)
  {
    forall j | 0 <= j < |fields|
      ensures ValidMember(structs, fields, j) <==>
              && (forall i | 0 <= i < j :: fields[i].name != fields[j].name)
              && (forall i | 0 <= i < j && fields[i].ty.OptionalField? :: fields[j].ty.OptionalField?)
              && Sound(structs, fields, j)
    {
      SoundMember(structs, fields, j);
      hide Sound, ValidType, EarlierUnsigned;
    }
    hide ValidMember, Sound;
  }

  lemma {:induction false} SoundMember(structs: Structs, fields: seq<Field>, j: nat)
    requires Acyclic(structs) && j < |fields|
    ensures Sound(structs, fields, j) <==>
            && (fields[j].ty.Reference().Some? ==> EarlierUnsigned(fields, j, fields[j].ty.Reference().value))
            && ValidType(structs, fields[j].ty)
  {
    hide StructWidth;
    assert forall i | 0 <= i < j :: fields[i].ty in UNSIGNED <==> fields[i].ty.ScalarField? && !fields[i].ty.scalar.IsSigned();
  }

  const UNSIGNED := {ScalarField(U8), ScalarField(U16), ScalarField(U32), ScalarField(U64)}

  /** The structures types hold: as a member, or as the elements of an array. */
  lemma {:induction false} StructuresHeld(ty: FieldType, name: string)
    ensures ty.Structure() == Some(name) <==>
            || ty == StructField(name)
            || (ty.ArrayField? && ty.element == StructElement(name))
            || (ty.CountedField? && ty.element == StructElement(name))
  {
  }

  function WidthOr0(width: Option<u16>): nat {
    if width.Some? then width.value else 0
  }

  function Narrowest(variants: seq<Variant>): (width: nat)
    requires variants != []
    ensures exists i | 0 <= i < |variants| :: variants[i].width == width
    ensures forall i | 0 <= i < |variants| :: width <= variants[i].width
  {
    if |variants| == 1 then variants[0].width else
    var rest := Narrowest(variants[1..]);
    if variants[0].width <= rest then variants[0].width else rest
  }

  function Widest(variants: seq<Variant>): (width: nat)
    requires variants != []
    ensures exists i | 0 <= i < |variants| :: variants[i].width == width
    ensures forall i | 0 <= i < |variants| :: variants[i].width <= width
  {
    if |variants| == 1 then variants[0].width else
    var rest := Widest(variants[1..]);
    if rest <= variants[0].width then variants[0].width else rest
  }

  function MinWidth(structs: Structs, ty: FieldType): nat
    requires Acyclic(structs)
  {
    match ty
    case ScalarField(scalar) => scalar.Width()
    case StructField(name) => WidthOr0(StructWidth(structs, name))
    case ArrayField(element, len) => len * WidthOr0(ElementWidth(structs, element))
    case CountedField(_, _, _) => 0
    case UnionField(_, variants) => if variants == [] then 0 else Narrowest(variants)
    case OptionalField(_) => 0
  }

  function MaxWidth(structs: Structs, ty: FieldType): nat
    requires Acyclic(structs)
  {
    match ty
    case CountedField(element, _, capacity) => capacity * WidthOr0(ElementWidth(structs, element))
    case UnionField(_, variants) => if variants == [] then 0 else Widest(variants)
    case OptionalField(scalar) => scalar.Width()
    case _ => MinWidth(structs, ty)
  }

  /** The sum of the smallest and of the largest widths of the members from the `k`th. */
  function BoundsFrom(structs: Structs, fields: seq<Field>, k: nat): Envelope
    requires Acyclic(structs) && k <= |fields|
    decreases |fields| - k
  {
    if k == |fields| then Envelope(0, 0) else
    var rest := BoundsFrom(structs, fields, k + 1);
    Envelope(MinWidth(structs, fields[k].ty) + rest.min, MaxWidth(structs, fields[k].ty) + rest.max)
  }

  function Bounds(structs: Structs, fields: seq<Field>): Envelope
    requires Acyclic(structs)
  {
    BoundsFrom(structs, fields, 0)
  }

  /** `earlier` holds the types of the first `j` members by name. */
  ghost predicate Indexes(earlier: map<string, FieldType>, fields: seq<Field>, j: nat)
    requires j <= |fields|
  {
    && (forall i | 0 <= i < j :: fields[i].name in earlier && earlier[fields[i].name] == fields[i].ty)
    && (forall name | name in earlier :: exists i | 0 <= i < j :: fields[i].name == name)
  }

  lemma {:induction false} IndexesReferences(structs: Structs, earlier: map<string, FieldType>, fields: seq<Field>,
                                             j: nat, name: string)
    requires j <= |fields| && Indexes(earlier, fields, j)
    ensures RefersToUnsigned(earlier, name) <==> EarlierUnsigned(fields, j, name)
    ensures name in earlier <==> exists i | 0 <= i < j :: fields[i].name == name
  {
  }

  lemma {:induction false} IndexesOneMore(earlier: map<string, FieldType>, fields: seq<Field>, j: nat)
    requires j < |fields| && Indexes(earlier, fields, j) && fields[j].name !in earlier
    ensures Indexes(earlier[fields[j].name := fields[j].ty], fields, j + 1)
  {
  }

  /** The loop validating a layout and adding up its envelope. */
  method ComputeEnvelope(structs: Structs, fields: seq<Field>) returns (result: Option<Envelope>)
    requires Acyclic(structs)
    ensures result.Some? <==> ValidLayout(structs, fields)
    ensures result.Some? ==> result.value == Bounds(structs, fields)
  {
    var min: nat, max: nat := 0, 0;
    var earlier: map<string, FieldType> := map[];
    var optional := false;
    for j := 0 to |fields|
      invariant min + BoundsFrom(structs, fields, j).min == Bounds(structs, fields).min
      invariant max + BoundsFrom(structs, fields, j).max == Bounds(structs, fields).max
      invariant forall i | 0 <= i < j :: ValidMember(structs, fields, i)
      invariant Indexes(earlier, fields, j)
      invariant optional <==> exists i | 0 <= i < j :: fields[i].ty.OptionalField?
    {
      hide Indexes, ValidMember, MinWidth, MaxWidth;
      var field := fields[j];
      var valid := CheckMember(structs, fields, earlier, optional, j);
      if valid.None? {
        return None;
      }
      optional := optional || field.ty.OptionalField?;
      min, max := min + valid.value.min, max + valid.value.max;
      IndexesOneMore(earlier, fields, j);
      earlier := earlier[field.name := field.ty];
    }
    return Some(Envelope(min, max));
  }

  /** One member's checks, against the members before it. */
  method CheckMember(structs: Structs, fields: seq<Field>, earlier: map<string, FieldType>, optional: bool, j: nat)
    returns (result: Option<Envelope>)
    requires Acyclic(structs) && j < |fields| && Indexes(earlier, fields, j)
    requires optional <==> exists i | 0 <= i < j :: fields[i].ty.OptionalField?
    ensures result.Some? <==> ValidMember(structs, fields, j)
    ensures result.Some? ==>
              result.value == Envelope(MinWidth(structs, fields[j].ty), MaxWidth(structs, fields[j].ty))
    ensures result.Some? ==> fields[j].name !in earlier
  {
    hide ValidType, MinWidth, MaxWidth;
    var field := fields[j];
    IndexesReferences(structs, earlier, fields, j, field.name);
    if field.ty.Reference().Some? {
      IndexesReferences(structs, earlier, fields, j, field.ty.Reference().value);
    }
    if optional && !field.ty.OptionalField? {
      assert !ValidMember(structs, fields, j);
      return None;
    }
    result := ComputeMember(structs, earlier, field.ty);
    if result.Some? && field.name in earlier {
      assert !ValidMember(structs, fields, j);
      return None;
    }
  }

  method ComputeMember(structs: Structs, earlier: map<string, FieldType>, ty: FieldType)
    returns (result: Option<Envelope>)
    requires Acyclic(structs)
    ensures result.Some? <==>
              && ValidType(structs, ty)
              && (ty.Reference().Some? ==> RefersToUnsigned(earlier, ty.Reference().value))
    ensures result.Some? ==> result.value == Envelope(MinWidth(structs, ty), MaxWidth(structs, ty))
  {
    match ty {
      case ScalarField(scalar) =>
        return Some(Envelope(scalar.Width(), scalar.Width()));
      case StructField(name) =>
        var width := ComputeStructWidth(structs, name);
        if width.None? { return None; }
        return Some(Envelope(width.value, width.value));
      case ArrayField(element, len) =>
        var width := ComputeElementWidth(structs, element);
        if width.None? { return None; }
        return Some(Envelope(len * width.value, len * width.value));
      case CountedField(element, count, capacity) =>
        if !RefersToUnsigned(earlier, count) { return None; }
        var width := ComputeElementWidth(structs, element);
        if width.None? { return None; }
        return Some(Envelope(0, capacity * width.value));
      case UnionField(selector, variants) =>
        if !RefersToUnsigned(earlier, selector) || variants == [] { return None; }
        for k := 0 to |variants|
          invariant DistinctTags(variants[..k])
        {
          if exists i | 0 <= i < k :: variants[i].tag == variants[k].tag {
            return None;
          }
        }
        assert variants[..|variants|] == variants;
        return Some(Envelope(Narrowest(variants), Widest(variants)));
      case OptionalField(scalar) =>
        return Some(Envelope(0, scalar.Width()));
    }
  }

  method ComputeElementWidth(structs: Structs, element: Element) returns (result: Option<u16>)
    requires Acyclic(structs)
    ensures result == ElementWidth(structs, element)
  {
    match element {
      case IntegerElement(scalar) => result := Some(scalar.Width());
      case StructElement(name) => result := ComputeStructWidth(structs, name);
    }
  }

  predicate RefersToUnsigned(earlier: map<string, FieldType>, reference: string) {
    reference in earlier && earlier[reference].ScalarField? && !earlier[reference].scalar.IsSigned()
  }
}

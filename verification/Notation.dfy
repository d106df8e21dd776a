/** The one-line notation of a field (crates/stm32wb-catalog/src/layout.rs). */
module Notation {
  import opened Options
  import opened Text
  import opened Layout

  // ----- printing

  function ScalarName(scalar: Scalar): string {
    match scalar
    case U8 => "u8"
    case U16 => "u16"
    case U32 => "u32"
    case U64 => "u64"
    case I8 => "i8"
    case I16 => "i16"
    case I32 => "i32"
    case I64 => "i64"
  }

  function ScalarNamed(name: string): Option<Scalar> {
    if name == "u8" then Some(U8)
    else if name == "u16" then Some(U16)
    else if name == "u32" then Some(U32)
    else if name == "u64" then Some(U64)
    else if name == "i8" then Some(I8)
    else if name == "i16" then Some(I16)
    else if name == "i32" then Some(I32)
    else if name == "i64" then Some(I64)
    else None
  }

  function ElementName(element: Element): string {
    match element
    case IntegerElement(scalar) => ScalarName(scalar)
    case StructElement(name) => name
  }

  /** `tag => width`, then `tail`. */
  function ShowVariant(variant: Variant, tail: string): string {
    (if variant.tag.Some? then Decimal(variant.tag.value) else "_") + (" => " + (Decimal(variant.width) + tail))
  }

  /** The variants, separated by commas, then `tail`. */
  function ShowVariants(variants: seq<Variant>, tail: string): string {
    if variants == [] then tail
    else ShowVariant(variants[0], if |variants| == 1 then tail else ", " + ShowVariants(variants[1..], tail))
  }

  function ShowType(ty: FieldType): string {
    match ty
    case ScalarField(scalar) => ScalarName(scalar)
    case StructField(name) => name
    case ArrayField(element, len) => "[" + (ElementName(element) + ("; " + (Decimal(len) + "]")))
    case CountedField(element, count, capacity) =>
      "[" + (ElementName(element) + ("; " + (count + ("] (capacity " + (Decimal(capacity) + ")")))))
    case UnionField(selector, variants) => "union(" + (selector + (") { " + ShowVariants(variants, " }")))
    case OptionalField(scalar) => ScalarName(scalar) + " (optional)"
  }

  function Show(field: Field): string {
    field.name + (": " + ShowType(field.ty))
  }

  // ----- parsing

  /** A parser takes a value off its input, backtracks, or fails for good. */
  datatype Parsed<T> = Done(value: T, rest: string) | Backtrack | Cut

  predicate IsSpace(c: char) {
    c == ' ' || c == '\t' || c == '\r' || c == '\n'
  }

  predicate IsWordChar(c: char) {
    IsDigit(c) || IsUpper(c) || IsLower(c) || c == '_'
  }

  /** What follows any whitespace. */
  function Skip(s: string): (rest: string)
    ensures |rest| <= |s|
  {
    if s != "" && IsSpace(s[0]) then Skip(s[1..]) else s
  }

  function WordLength(s: string): (n: nat)
    ensures n <= |s|
  {
    if s != "" && IsWordChar(s[0]) then 1 + WordLength(s[1..]) else 0
  }

  function ParseWord(s: string): (parsed: Parsed<string>)
    ensures !parsed.Cut?
    ensures parsed.Done? ==> |parsed.rest| < |s|
  {
    var t := Skip(s);
    var n := WordLength(t);
    if n == 0 then Backtrack else Done(t[..n], t[n..])
  }

  function ParseIdentifier(s: string): Parsed<string> {
    var word := ParseWord(s);
    if word.Done? && (word.value == "" || IsDigit(word.value[0])) then Backtrack else word
  }

  function ParsePunct(token: string, s: string): (parsed: Parsed<string>)
    ensures !parsed.Cut?
    ensures parsed.Done? ==> |parsed.rest| + |token| <= |s|
  {
    var t := Skip(s);
    if token <= t then Done(token, t[|token|..]) else Backtrack
  }

  function ParseInteger(bound: nat, s: string): (parsed: Parsed<nat>)
    ensures !parsed.Cut?
    ensures parsed.Done? ==> parsed.value < bound && |parsed.rest| < |s|
  {
    var word := ParseWord(s);
    if !word.Done? then Backtrack else
    var n := Unsigned(word.value, Ten, bound);
    if n.None? then Backtrack else Done(n.value, word.rest)
  }

  function ParseElement(s: string): Parsed<Element> {
    var name := ParseIdentifier(s);
    if !name.Done? then Backtrack else
    var scalar := ScalarNamed(name.value);
    Done(if scalar.Some? then IntegerElement(scalar.value) else StructElement(name.value), name.rest)
  }

  const U16_BOUND := 0x1_0000
  const U64_BOUND := 0x1_0000_0000_0000_0000

  /** An array: its length is a number, or the name of its count with a capacity after it. */
  function ParseArray(s: string): Parsed<FieldType> {
    var open := ParsePunct("[", s);
    if !open.Done? then Backtrack else
    var element := ParseElement(open.rest);
    if !element.Done? then Cut else
    var semicolon := ParsePunct(";", element.rest);
    if !semicolon.Done? then Cut else
    var count := ParseWord(semicolon.rest);
    if !count.Done? then Cut else
    var close := ParsePunct("]", count.rest);
    if !close.Done? then Cut else
    var len := Unsigned(count.value, Ten, U16_BOUND);
    if len.Some? then Done(ArrayField(element.value, len.value), close.rest)
    else ParseCapacity(element.value, count.value, close.rest)
  }

  function ParseCapacity(element: Element, count: string, s: string): Parsed<FieldType> {
    var open := ParsePunct("(", s);
    if !open.Done? then Cut else
    var keyword := ParsePunct("capacity", open.rest);
    if !keyword.Done? then Cut else
    var capacity := ParseInteger(U16_BOUND, keyword.rest);
    if !capacity.Done? then Cut else
    var close := ParsePunct(")", capacity.rest);
    if !close.Done? then Cut else Done(CountedField(element, count, capacity.value), close.rest)
  }

  /** `tag => width`, or `_ => width`. */
  function ParseVariant(s: string): (parsed: Parsed<Variant>)
    ensures !parsed.Cut?
    ensures parsed.Done? ==> |parsed.rest| < |s|
  {
    var other := ParsePunct("_", s);
    var tag := ParseInteger(U64_BOUND, s);
    if other.Done? then ParseWidth(None, other.rest)
    else if tag.Done? then ParseWidth(Some(tag.value), tag.rest)
    else Backtrack
  }

  function ParseWidth(tag: Option<u64>, s: string): (parsed: Parsed<Variant>)
    ensures !parsed.Cut?
    ensures parsed.Done? ==> |parsed.rest| < |s|
  {
    var arrow := ParsePunct("=>", s);
    if !arrow.Done? then Backtrack else
    var width := ParseInteger(U16_BOUND, arrow.rest);
    if !width.Done? then Backtrack else Done(Variant(tag, width.value), width.rest)
  }

  /** One or more variants; a comma without a variant after it is left. */
  function ParseVariants(s: string): (parsed: Parsed<seq<Variant>>)
    ensures !parsed.Cut?
    ensures parsed.Done? ==> |parsed.rest| < |s| && parsed.value != []
    decreases |s|
  {
    var first := ParseVariant(s);
    if !first.Done? then Backtrack else
    var comma := ParsePunct(",", first.rest);
    if !comma.Done? then Done([first.value], first.rest) else
    var others := ParseVariants(comma.rest);
    if others.Done? then Done([first.value] + others.value, others.rest) else Done([first.value], first.rest)
  }

  /** `union(selector) { tag => width, ... }`. */
  function ParseUnion(s: string): Parsed<FieldType> {
    var keyword := ParsePunct("union", s);
    if !keyword.Done? then Backtrack else
    var open := ParsePunct("(", keyword.rest);
    if !open.Done? then Backtrack else
    var selector := ParseIdentifier(open.rest);
    if !selector.Done? then Cut else
    var close := ParsePunct(")", selector.rest);
    if !close.Done? then Cut else
    var brace := ParsePunct("{", close.rest);
    if !brace.Done? then Cut else
    var variants := ParseVariants(brace.rest);
    if !variants.Done? then Cut else
    var end := ParsePunct("}", variants.rest);
    if !end.Done? then Cut else Done(UnionField(selector.value, variants.value), end.rest)
  }

  /** `(optional)`, if it follows. */
  function SkipOptional(s: string): Option<string> {
    var open := ParsePunct("(", s);
    if !open.Done? then None else
    var keyword := ParsePunct("optional", open.rest);
    if !keyword.Done? then None else
    var close := ParsePunct(")", keyword.rest);
    if close.Done? then Some(close.rest) else None
  }

  /** `scalar`, `scalar (optional)`, or a structure's name. */
  function ParseScalarOrStruct(s: string): Parsed<FieldType> {
    var element := ParseElement(s);
    if !element.Done? then Backtrack else
    match element.value
    case StructElement(name) => Done(StructField(name), element.rest)
    case IntegerElement(scalar) =>
      var optional := SkipOptional(element.rest);
      if optional.Some? then Done(OptionalField(scalar), optional.value) else Done(ScalarField(scalar), element.rest)
  }

  /** The first alternative that does not backtrack. */
  function ParseType(s: string): Parsed<FieldType> {
    var bracketed := ParseArray(s);
    if !bracketed.Backtrack? then bracketed else
    var union := ParseUnion(s);
    if !union.Backtrack? then union else ParseScalarOrStruct(s)
  }

  /** A field, up to the end of the text. */
  function Parse(s: string): Option<Field> {
    var name := ParseIdentifier(s);
    if !name.Done? then None else
    var colon := ParsePunct(":", name.rest);
    if !colon.Done? then None else
    var ty := ParseType(colon.rest);
    if ty.Done? && Skip(ty.rest) == "" then Some(Field(name.value, ty.value)) else None
  }

  // ----- what is printed is parsed

  predicate IsWord(s: string) {
    s != "" && forall i | 0 <= i < |s| :: IsWordChar(s[i])
  }

  predicate IsIdentifier(s: string) {
    IsWord(s) && !IsDigit(s[0])
  }

  predicate NamedElement(element: Element) {
    element.StructElement? ==> IsIdentifier(element.name) && ScalarNamed(element.name).None?
  }

  /** A field the notation can express: identifiers for names, structures not named as
      integers, counts not written as array lengths, and unions with alternatives. */
  predicate WellFormed(field: Field) {
    IsIdentifier(field.name) &&
    match field.ty
    case ScalarField(_) | OptionalField(_) => true
    case StructField(name) => IsIdentifier(name) && ScalarNamed(name).None?
    case ArrayField(element, _) => NamedElement(element)
    case CountedField(element, count, _) => NamedElement(element) && IsWord(count) && Unsigned(count, Ten, U16_BOUND).None?
    case UnionField(selector, variants) => IsIdentifier(selector) && variants != []
  }

  /** The next character, if any, ends a word. */
  predicate Ends(s: string) {
    s == "" || !IsWordChar(s[0])
  }

  lemma {:induction false} WordEnds(w: string, rest: string)
    requires (forall i | 0 <= i < |w| :: IsWordChar(w[i])) && Ends(rest)
    ensures WordLength(w + rest) == |w|
  {
    if w == "" {
      assert w + rest == rest;
    } else {
      assert (w + rest)[1..] == w[1..] + rest;
      WordEnds(w[1..], rest);
    }
  }

  lemma {:induction false} WordParsed(w: string, rest: string)
    requires IsWord(w) && Ends(rest)
    ensures ParseWord(w + rest) == Done(w, rest)
    ensures ParseWord(" " + (w + rest)) == Done(w, rest)
    ensures IsIdentifier(w) ==> ParseIdentifier(w + rest) == Done(w, rest) && ParseIdentifier(" " + (w + rest)) == Done(w, rest)
  {
    WordEnds(w, rest);
    assert (w + rest)[0] == w[0] && (w + rest)[..|w|] == w && (w + rest)[|w|..] == rest;
    assert (" " + (w + rest))[1..] == w + rest;
  }

  lemma {:induction false} PunctParsed(token: string, rest: string)
    requires token != "" && !IsSpace(token[0])
    ensures ParsePunct(token, token + rest) == Done(token, rest)
    ensures ParsePunct(token, " " + (token + rest)) == Done(token, rest)
  {
    assert (token + rest)[0] == token[0] && (token + rest)[|token|..] == rest;
    assert (" " + (token + rest))[1..] == token + rest;
  }

  /** Another character than a token's first one is not the token. */
  lemma {:induction false} OtherPunct(token: string, s: string)
    requires token != "" && s != "" && !IsSpace(s[0]) && s[0] != token[0]
    ensures ParsePunct(token, s).Backtrack?
    ensures ParsePunct(token, " " + s).Backtrack?
  {
    assert (" " + s)[1..] == s;
  }

  lemma {:induction false} DecimalIsWord(n: nat)
    ensures IsWord(Decimal(n)) && IsDigit(Decimal(n)[0])
  {
    DigitsDenote(n, Ten);
    forall i | 0 <= i < |Decimal(n)| ensures IsWordChar(Decimal(n)[i]) {
      assert Printable(Decimal(n)[i], Ten);
    }
    assert Printable(Decimal(n)[0], Ten);
  }

  lemma {:induction false} IntegerParsed(n: nat, bound: nat, rest: string)
    requires n < bound && Ends(rest)
    ensures ParseInteger(bound, Decimal(n) + rest) == Done(n, rest)
    ensures ParseInteger(bound, " " + (Decimal(n) + rest)) == Done(n, rest)
  {
    DecimalIsWord(n);
    UnsignedDecimal(n, bound);
    hide Digits, Unsigned, ParseWord, Skip;
    WordParsed(Decimal(n), rest);
  }

  lemma {:induction false} ElementParsed(element: Element, rest: string)
    requires NamedElement(element) && Ends(rest)
    ensures ParseElement(ElementName(element) + rest) == Done(element, rest)
    ensures ParseElement(" " + (ElementName(element) + rest)) == Done(element, rest)
    ensures IsIdentifier(ElementName(element))
  {
    ScalarNames(element);
    hide ParseIdentifier;
    WordParsed(ElementName(element), rest);
  }

  lemma {:induction false} ScalarNames(element: Element)
    requires NamedElement(element)
    ensures IsIdentifier(ElementName(element))
    ensures ScalarNamed(ElementName(element)) == if element.IntegerElement? then Some(element.scalar) else None
  {
  }

  lemma {:induction false} ArrayParsed(element: Element, len: u16)
    requires NamedElement(element)
    ensures ParseArray(" " + ShowType(ArrayField(element, len))) == Done(ArrayField(element, len), "")
  {
    hide ParsePunct, ParseElement, ParseWord, Unsigned, Digits, NamedElement, ElementName, IsWord;
    var d := Decimal(len);
    assert "; " + (d + "]") == ";" + (" " + (d + "]"));
    assert "]" == "]" + "";
    PunctParsed("[", ElementName(element) + ("; " + (d + "]")));
    ElementParsed(element, "; " + (d + "]"));
    PunctParsed(";", " " + (d + "]"));
    DecimalIsWord(len);
    WordParsed(d, "]");
    PunctParsed("]", "");
    UnsignedDecimal(len, U16_BOUND);
  }

  lemma {:induction false} CountedParsed(element: Element, count: string, capacity: u16)
    requires NamedElement(element) && IsWord(count) && Unsigned(count, Ten, U16_BOUND).None?
    ensures ParseArray(" " + ShowType(CountedField(element, count, capacity))) == Done(CountedField(element, count, capacity), "")
  {
    hide ParsePunct, ParseElement, ParseWord, Unsigned, Digits, NamedElement, ElementName, IsWord, ParseInteger;
    var d := Decimal(capacity);
    var tail := "] (capacity " + (d + ")");
    assert tail == "]" + (" " + ("(" + ("capacity" + (" " + (d + ")")))));
    assert "; " + (count + tail) == ";" + (" " + (count + tail));
    assert ")" == ")" + "";
    PunctParsed("[", ElementName(element) + ("; " + (count + tail)));
    ElementParsed(element, "; " + (count + tail));
    PunctParsed(";", " " + (count + tail));
    WordParsed(count, tail);
    PunctParsed("]", " " + ("(" + ("capacity" + (" " + (d + ")")))));
    PunctParsed("(", "capacity" + (" " + (d + ")")));
    PunctParsed("capacity", " " + (d + ")"));
    IntegerParsed(capacity, U16_BOUND, ")");
    PunctParsed(")", "");
  }

  lemma {:induction false} WidthParsed(tag: Option<u64>, width: u16, tail: string)
    requires Ends(tail)
    ensures ParseWidth(tag, " => " + (Decimal(width) + tail)) == Done(Variant(tag, width), tail)
  {
    hide ParsePunct, ParseInteger, Digits;
    assert " => " + (Decimal(width) + tail) == " " + ("=>" + (" " + (Decimal(width) + tail)));
    PunctParsed("=>", " " + (Decimal(width) + tail));
    IntegerParsed(width, U16_BOUND, tail);
  }

  lemma {:induction false} VariantParsed(variant: Variant, tail: string)
    requires Ends(tail)
    ensures ParseVariant(" " + ShowVariant(variant, tail)) == Done(variant, tail)
  {
    hide ParsePunct, ParseInteger, ParseWidth, Digits, IsWord;
    var arrow := " => " + (Decimal(variant.width) + tail);
    WidthParsed(variant.tag, variant.width, tail);
    match variant.tag {
      case None =>
        PunctParsed("_", arrow);
      case Some(tag) =>
        DecimalIsWord(tag);
        assert (Decimal(tag) + arrow)[0] == Decimal(tag)[0];
        OtherPunct("_", Decimal(tag) + arrow);
        IntegerParsed(tag, U64_BOUND, arrow);
    }
  }

  lemma {:induction false} VariantsParsed(variants: seq<Variant>, tail: string)
    requires variants != [] && tail == " }"
    ensures ParseVariants(" " + ShowVariants(variants, tail)) == Done(variants, tail)
  {
    hide ParsePunct, ParseVariant, ShowVariant;
    if |variants| == 1 {
      VariantParsed(variants[0], tail);
      assert tail == " " + "}";
      OtherPunct(",", "}");
      assert variants == [variants[0]];
    } else {
      var others := ShowVariants(variants[1..], tail);
      VariantParsed(variants[0], ", " + others);
      assert ", " + others == "," + (" " + others);
      PunctParsed(",", " " + others);
      VariantsParsed(variants[1..], tail);
      assert variants == [variants[0]] + variants[1..];
    }
  }

  lemma {:induction false} UnionParsed(selector: string, variants: seq<Variant>)
    requires IsIdentifier(selector) && variants != []
    ensures ParseUnion(" " + ShowType(UnionField(selector, variants))) == Done(UnionField(selector, variants), "")
  {
    hide ParsePunct, ParseIdentifier, ParseVariants, ShowVariants, IsWord;
    var alternatives := ShowVariants(variants, " }");
    var tail := ") { " + alternatives;
    assert tail == ")" + (" " + ("{" + (" " + alternatives)));
    assert "union(" + (selector + tail) == "union" + ("(" + (selector + tail));
    assert " }" == " " + ("}" + "");
    PunctParsed("union", "(" + (selector + tail));
    PunctParsed("(", selector + tail);
    WordParsed(selector, tail);
    PunctParsed(")", " " + ("{" + (" " + alternatives)));
    PunctParsed("{", " " + alternatives);
    VariantsParsed(variants, " }");
    PunctParsed("}", "");
  }

  /** An identifier is not an array. */
  lemma {:induction false} NotArray(name: string, rest: string)
    requires IsIdentifier(name)
    ensures ParseArray(" " + (name + rest)).Backtrack?
  {
    assert (name + rest)[0] == name[0] && IsWordChar(name[0]);
    OtherPunct("[", name + rest);
  }

  /** Nor is it a union, even where it begins like one. */
  lemma {:induction false} NotUnion(name: string, rest: string)
    requires IsIdentifier(name) && (rest == "" || (rest == " (optional)" && !("union" <= name)))
    ensures ParseUnion(" " + (name + rest)).Backtrack?
  {
    var s := name + rest;
    assert (" " + s)[1..] == s && s[0] == name[0] && IsWordChar(name[0]);
    assert Skip(" " + s) == s;
    if rest == "" {
      assert s == name;
      if "union" <= name {
        var after := s[5..];
        if after != "" {
          assert after[0] == name[5] && IsWordChar(name[5]);
          assert Skip(after) == after;
        }
      }
    } else {
      StillNotUnion(name, rest);
    }
  }

  lemma {:induction false} StillNotUnion(name: string, rest: string)
    requires !("union" <= name) && rest != "" && rest[0] == ' '
    ensures !("union" <= name + rest)
  {
    var s := name + rest;
    if |name| < 5 {
      assert s[|name|] == ' ';
    } else {
      assert s[..5] == name[..5];
    }
  }

  lemma {:induction false} ScalarParsed(scalar: Scalar, optional: bool)
    ensures ParseScalarOrStruct(" " + (ScalarName(scalar) + if optional then " (optional)" else ""))
            == Done(if optional then OptionalField(scalar) else ScalarField(scalar), "")
  {
    hide ParseElement, ParsePunct, ScalarName;
    var element := IntegerElement(scalar);
    ElementParsed(element, if optional then " (optional)" else "");
    if optional {
      assert " (optional)" == " " + ("(" + ("optional" + (")" + "")));
      PunctParsed("(", "optional" + (")" + ""));
      PunctParsed("optional", ")" + "");
      PunctParsed(")", "");
    } else {
      NothingLeft("(");
    }
  }

  lemma {:induction false} NothingLeft(token: string)
    requires token != ""
    ensures ParsePunct(token, "").Backtrack? && Skip("") == ""
  {
  }

  lemma {:induction false} StructParsed(name: string)
    requires IsIdentifier(name) && ScalarNamed(name).None?
    ensures ParseScalarOrStruct(" " + name) == Done(StructField(name), "")
  {
    hide ParseElement;
    assert name == name + "";
    ElementParsed(StructElement(name), "");
  }

  lemma {:induction false} NotUnionScalar(scalar: Scalar)
    ensures IsIdentifier(ScalarName(scalar)) && !("union" <= ScalarName(scalar))
  {
  }

  lemma {:induction false} TypeParsed(field: Field)
    requires WellFormed(field)
    ensures ParseType(" " + ShowType(field.ty)) == Done(field.ty, "")
  {
    hide ParseArray, ParseUnion, ParseScalarOrStruct, ScalarName, IsIdentifier, NamedElement, IsWord, Unsigned, ScalarNamed;
    match field.ty {
      case ScalarField(scalar) =>
        NotUnionScalar(scalar);
        assert ScalarName(scalar) == ScalarName(scalar) + "";
        NotArray(ScalarName(scalar), "");
        NotUnion(ScalarName(scalar), "");
        ScalarParsed(scalar, false);
      case OptionalField(scalar) =>
        NotUnionScalar(scalar);
        NotArray(ScalarName(scalar), " (optional)");
        NotUnion(ScalarName(scalar), " (optional)");
        ScalarParsed(scalar, true);
      case StructField(name) =>
        assert name == name + "";
        NotArray(name, "");
        NotUnion(name, "");
        StructParsed(name);
      case ArrayField(element, len) =>
        ArrayParsed(element, len);
      case CountedField(element, count, capacity) =>
        CountedParsed(element, count, capacity);
      case UnionField(selector, variants) =>
        UnionIsNotArray(selector, variants);
        UnionParsed(selector, variants);
    }
  }

  lemma {:induction false} UnionIsNotArray(selector: string, variants: seq<Variant>)
    ensures ParseArray(" " + ShowType(UnionField(selector, variants))).Backtrack?
  {
    var s := ShowType(UnionField(selector, variants));
    assert s[0] == 'u';
    OtherPunct("[", s);
  }

  /** Every field the notation can express is read back from its printed form. */
  lemma {:induction false} PrintedIsParsed(field: Field)
    requires WellFormed(field)
    ensures Parse(Show(field)) == Some(field)
  {
    hide ParseType, ShowType, ParseIdentifier, ParsePunct, IsWord;
    var ty := ShowType(field.ty);
    assert ": " + ty == ":" + (" " + ty);
    WordParsed(field.name, ": " + ty);
    PunctParsed(":", " " + ty);
    TypeParsed(field);
    NothingLeft(":");
  }

  // ----- what is parsed can be printed

  lemma {:induction false} WordIsWord(s: string)
    ensures forall i | 0 <= i < WordLength(s) :: IsWordChar(s[i])
  {
    if s != "" && IsWordChar(s[0]) {
      WordIsWord(s[1..]);
      forall i | 0 <= i < WordLength(s) ensures IsWordChar(s[i]) {
        assert i > 0 ==> s[i] == s[1..][i - 1];
      }
    }
  }

  lemma {:induction false} ParsedWord(s: string)
    ensures ParseWord(s).Done? ==> IsWord(ParseWord(s).value)
    ensures ParseIdentifier(s).Done? ==> IsIdentifier(ParseIdentifier(s).value)
  {
    WordIsWord(Skip(s));
  }

  lemma {:induction false} ParsedElement(s: string)
    ensures ParseElement(s).Done? ==> NamedElement(ParseElement(s).value)
  {
    ParsedWord(s);
    hide ParseIdentifier;
  }

  lemma {:induction false} ParsedType(name: string, s: string)
    requires IsIdentifier(name) && ParseType(s).Done?
    ensures WellFormed(Field(name, ParseType(s).value))
  {
    hide ParsePunct, ParseElement, ParseWord, ParseIdentifier, ParseVariants, NamedElement, IsIdentifier, IsWord, Unsigned, ScalarNamed,
      SkipOptional, ParseInteger;
    var open := ParsePunct("[", s);
    if open.Done? {
      ParsedElement(open.rest);
      var element := ParseElement(open.rest);
      if element.Done? {
        var semicolon := ParsePunct(";", element.rest);
        if semicolon.Done? {
          ParsedWord(semicolon.rest);
        }
      }
    } else {
      var keyword := ParsePunct("union", s);
      if keyword.Done? && ParsePunct("(", keyword.rest).Done? {
        ParsedWord(ParsePunct("(", keyword.rest).rest);
      } else {
        ParsedElement(s);
        NamedStruct(ParseElement(s));
      }
    }
  }

  lemma {:induction false} NamedStruct(parsed: Parsed<Element>)
    requires parsed.Done? ==> NamedElement(parsed.value)
    ensures parsed.Done? && parsed.value.StructElement? ==> IsIdentifier(parsed.value.name) && ScalarNamed(parsed.value.name).None?
  {
  }

  /** Whatever is accepted has a form that reads back as the same field. */
  lemma {:induction false} ParsedIsPrintable(s: string)
    requires Parse(s).Some?
    ensures WellFormed(Parse(s).value) && Parse(Show(Parse(s).value)) == Parse(s)
  {
    ParsedWord(s);
    var name := ParseIdentifier(s);
    var colon := ParsePunct(":", name.rest);
    hide ParseIdentifier, ParsePunct, ParseType, Skip, Show, WellFormed;
    ParsedType(name.value, colon.rest);
    PrintedIsParsed(Parse(s).value);
  }

  /** A field is read back from its printed form exactly if the notation can express it. */
  lemma {:induction false} RoundTrips(field: Field)
    ensures Parse(Show(field)) == Some(field) <==> WellFormed(field)
  {
    hide Parse, Show, WellFormed;
    if WellFormed(field) {
      PrintedIsParsed(field);
    } else if Parse(Show(field)) == Some(field) {
      ParsedIsPrintable(Show(field));
    }
  }

  // ----- whitespace and leading zeros

  /** Whitespace before a word or a token is skipped. */
  lemma {:induction false} SpacesSkipped(c: char, token: string, s: string)
    requires c in {' ', '\t', '\r', '\n'}
    ensures ParseWord([c] + s) == ParseWord(s) && ParsePunct(token, [c] + s) == ParsePunct(token, s)
    ensures Skip([c] + s) == Skip(s)
  {
    assert ([c] + s)[1..] == s;
  }

  /** Letters, digits and the underscore, by their codes. */
  predicate IsWordCode(code: int) {
    48 <= code <= 57 || 65 <= code <= 90 || 97 <= code <= 122 || code == 95
  }

  /** A word is as many letters, digits and underscores as follow. */
  lemma {:induction false} WordsTaken(s: string)
    ensures var n := WordLength(s);
            && (n < |s| ==> !IsWordCode(s[n] as int))
            && forall i | 0 <= i < n :: IsWordCode(s[i] as int)
  {
    if s != "" && IsWordChar(s[0]) {
      WordsTaken(s[1..]);
    }
  }

  // ----- the notation itself

  /** Integer types are written as their sign and their width in bits, and only so. */
  lemma {:induction false} NamedByWidth(scalar: Scalar, name: string)
    ensures ScalarName(scalar) == [if scalar.IsSigned() then 'i' else 'u'] + Decimal(8 * scalar.Width())
    ensures ScalarNamed(name) == Some(scalar) <==> name == ScalarName(scalar)
  {
    WidthsInBits();
    hide Digits;
  }

  lemma {:induction false} WidthsInBits()
    ensures Decimal(8) == "8" && Decimal(16) == "16" && Decimal(32) == "32" && Decimal(64) == "64"
  {
    assert Decimal(1) == "1" && Decimal(3) == "3" && Decimal(6) == "6";
  }

  /** One field of each kind, as it is written: what is written is read back, by
      `PrintedIsParsed`. */
  lemma {:induction false} ScalarText()
    ensures Show(Field("Status", ScalarField(U8))) == "Status: u8"
    ensures Show(Field("Config", StructField("Config_t"))) == "Config: Config_t"
  {
  }

  lemma {:induction false} OptionalText()
    ensures Show(Field("fw_src_add", OptionalField(U32))) == "fw_src_add: u32 (optional)"
  {
  }

  lemma {:induction false} ArrayText()
    ensures Show(Field("Event_Mask", ArrayField(IntegerElement(U8), 8))) == "Event_Mask: [u8; 8]"
  {
    assert Decimal(8) == "8";
  }

  function ElementText(element: Element): string {
    match element
    case IntegerElement(scalar) => [if scalar.IsSigned() then 'i' else 'u'] + Decimal(8 * scalar.Width())
    case StructElement(name) => name
  }

  function TagText(tag: Option<u64>): string {
    match tag
    case Some(n) => Decimal(n)
    case None => "_"
  }

  /** Arrays, buffers and unions, for all names and numbers. */
  lemma {:induction false} WrittenAs(name: string, element: Element, len: u16, count: string, variant: Variant,
                                     others: seq<Variant>, tail: string)
    ensures Show(Field(name, ArrayField(element, len)))
            == name + (": " + ("[" + (ElementText(element) + ("; " + (Decimal(len) + "]")))))
    ensures Show(Field(name, CountedField(element, count, len)))
            == name + (": " + ("[" + (ElementText(element) + ("; " + (count + ("] (capacity " + (Decimal(len) + ")")))))))
    ensures Show(Field(name, UnionField(count, others)))
            == name + (": " + ("union(" + (count + (") { " + ShowVariants(others, " }")))))
    ensures ShowVariants([variant], tail) == TagText(variant.tag) + (" => " + (Decimal(variant.width) + tail))
    ensures others != [] ==>
              ShowVariants([variant] + others, tail)
              == TagText(variant.tag) + (" => " + (Decimal(variant.width) + (", " + ShowVariants(others, tail))))
  {
    if element.IntegerElement? {
      NamedByWidth(element.scalar, "");
    }
    hide Digits, ScalarName;
    assert ([variant] + others)[1..] == others;
  }
}

/** Which texts are read as a field: the tokens of the notation with any whitespace before
    and after each (crates/stm32wb-catalog/src/layout.rs). */
module Spelling {
  import opened Options
  import opened Text
  import opened Layout
  import opened Notation

  predicate AllSpaces(s: string) {
    forall i | 0 <= i < |s| :: s[i] in {' ', '\t', '\r', '\n'}
  }

  /** `s` is whitespace, then `token`, then `rest`. */
  ghost predicate Token(s: string, token: string, rest: string) {
    exists n: nat | n <= |s| :: AllSpaces(s[..n]) && s[n..] == token + rest
  }

  datatype Lexeme =
    | Word(text: string) | Colon | Semicolon | Comma | Arrow | Otherwise | OpenBracket | CloseBracket | OpenParen
    | CloseParen | OpenBrace | CloseBrace | UnionWord | CapacityWord | OptionalWord
  {
    function Text(): string {
      match this
      case Word(text) => text
      case Colon => ":"
      case Semicolon => ";"
      case Comma => ","
      case Arrow => "=>"
      case Otherwise => "_"
      case OpenBracket => "["
      case CloseBracket => "]"
      case OpenParen => "("
      case CloseParen => ")"
      case OpenBrace => "{"
      case CloseBrace => "}"
      case UnionWord => "union"
      case CapacityWord => "capacity"
      case OptionalWord => "optional"
    }
  }

  datatype Lexemes = End | More(first: Lexeme, others: Lexemes)

  /** `s` is the tokens, with whitespace before each and at the end. */
  ghost predicate Reads(s: string, tokens: Lexemes)
    decreases tokens
  {
    match tokens
    case End => AllSpaces(s)
    case More(first, others) => exists next :: Token(s, first.Text(), next) && Reads(next, others)
  }

  /** A word for a number: digits, leading zeros allowed. */
  predicate Numeral(word: string, n: nat, bound: nat) {
    IsWord(word) && n < bound && Number(word, Ten) == Some(n)
  }

  predicate ElementWord(element: Element, word: string) {
    match element
    case IntegerElement(scalar) => word == [if scalar.IsSigned() then 'i' else 'u'] + Decimal(8 * scalar.Width())
    case StructElement(name) => word == name && IsIdentifier(name) && ScalarNamed(name).None?
  }

  /** The tokens of a variant, then `tail`. */
  predicate VariantTokens(variant: Variant, tokens: Lexemes, tail: Lexemes) {
    match tokens
    case More(tag, More(Arrow, More(Word(width), others))) =>
      && others == tail && Numeral(width, variant.width, 0x1_0000)
      && (match variant.tag
          case None => tag == Otherwise
          case Some(n) => tag.Word? && Numeral(tag.text, n, 0x1_0000_0000_0000_0000))
    case _ => false
  }

  /** Variants with a comma between each two, then `tail`. */
  ghost predicate VariantsTokens(variants: seq<Variant>, tokens: Lexemes, tail: Lexemes) {
    && variants != []
    && if |variants| == 1 then VariantTokens(variants[0], tokens, tail)
       else exists others ::
         VariantTokens(variants[0], tokens, More(Comma, others)) && VariantsTokens(variants[1..], others, tail)
  }

  ghost predicate TypeTokens(ty: FieldType, tokens: Lexemes) {
    match ty
    case ScalarField(scalar) =>
      (match tokens case More(Word(w), End) => ElementWord(IntegerElement(scalar), w) case _ => false)
    case StructField(name) =>
      (match tokens case More(Word(w), End) => ElementWord(StructElement(name), w) case _ => false)
    case OptionalField(scalar) =>
      (match tokens
       case More(Word(w), More(OpenParen, More(OptionalWord, More(CloseParen, End)))) =>
         ElementWord(IntegerElement(scalar), w)
       case _ => false)
    case ArrayField(element, len) =>
      (match tokens
       case More(OpenBracket, More(Word(w), More(Semicolon, More(Word(n), More(CloseBracket, End))))) =>
         ElementWord(element, w) && Numeral(n, len, 0x1_0000)
       case _ => false)
    case CountedField(element, count, capacity) =>
      (match tokens
       case More(OpenBracket, More(Word(w), More(Semicolon, More(Word(c), More(CloseBracket, more))))) =>
         && ElementWord(element, w) && c == count && IsWord(c) && Unsigned(c, Ten, 0x1_0000).None?
         && CapacityTokens(capacity, more)
       case _ => false)
    case UnionField(selector, variants) =>
      (match tokens
       case More(UnionWord, More(OpenParen, More(Word(name), More(CloseParen, More(OpenBrace, more))))) =>
         name == selector && IsIdentifier(name) && VariantsTokens(variants, more, More(CloseBrace, End))
       case _ => false)
  }

  predicate CapacityTokens(capacity: u16, tokens: Lexemes) {
    match tokens
    case More(OpenParen, More(CapacityWord, More(Word(n), More(CloseParen, End)))) => Numeral(n, capacity, 0x1_0000)
    case _ => false
  }

  /** The tokens a field is written as. */
  ghost predicate FieldTokens(field: Field, tokens: Lexemes) {
    match tokens
    case More(Word(name), More(Colon, ty)) => name == field.name && IsIdentifier(name) && TypeTokens(field.ty, ty)
    case _ => false
  }

  // ----- tokens

  lemma {:induction false} SkipsSpaces(s: string, n: nat)
    requires n <= |s| && AllSpaces(s[..n])
    ensures Skip(s) == Skip(s[n..])
  {
    if n > 0 {
      assert s[..n][0] == s[0];
      assert AllSpaces(s[1..][..n - 1]) by {
        assert s[1..][..n - 1] == s[..n][1..];
      }
      SkipsSpaces(s[1..], n - 1);
      assert s[1..][n - 1..] == s[n..];
    }
  }

  lemma {:induction false} Skipped(s: string) returns (n: nat)
    ensures n <= |s| && AllSpaces(s[..n]) && s[n..] == Skip(s)
    ensures Skip(s) == "" || !IsSpace(Skip(s)[0])
  {
    if s != "" && IsSpace(s[0]) {
      var m := Skipped(s[1..]);
      n := m + 1;
      assert s[1..][m..] == s[n..];
      assert s[..n] == [s[0]] + s[1..][..m];
    } else {
      n := 0;
    }
  }

  /** A token that does not start with whitespace is what follows the whitespace. */
  lemma {:induction false} TokenSkipped(s: string, token: string, rest: string)
    requires token != "" && !IsSpace(token[0])
    ensures Token(s, token, rest) <==> Skip(s) == token + rest
  {
    if Token(s, token, rest) {
      var n: nat :| n <= |s| && AllSpaces(s[..n]) && s[n..] == token + rest;
      SkipsSpaces(s, n);
      assert (token + rest)[0] == token[0];
    }
    if Skip(s) == token + rest {
      var n := Skipped(s);
    }
  }

  lemma {:induction false} PunctToken(token: string, s: string, rest: string)
    requires token != "" && !IsSpace(token[0])
    ensures ParsePunct(token, s) == Done(token, rest) <==> Token(s, token, rest)
  {
    TokenSkipped(s, token, rest);
    if Skip(s) == token + rest {
      assert (token + rest)[|token|..] == rest;
    }
  }

  lemma {:induction false} PunctRead(token: string, s: string)
    requires token != "" && !IsSpace(token[0]) && ParsePunct(token, s).Done?
    ensures Token(s, token, ParsePunct(token, s).rest)
  {
    PunctToken(token, s, ParsePunct(token, s).rest);
  }

  lemma {:induction false} WordToken(w: string, s: string, rest: string)
    ensures ParseWord(s) == Done(w, rest) ==> IsWord(w) && Token(s, w, rest) && Ends(rest)
    ensures IsWord(w) && Token(s, w, rest) && Ends(rest) ==> ParseWord(s) == Done(w, rest)
  {
    if ParseWord(s) == Done(w, rest) {
      ParsedWord(s);
      WordsTaken(Skip(s));
      assert Skip(s) == w + rest;
      TokenSkipped(s, w, rest);
    }
    if IsWord(w) && Token(s, w, rest) && Ends(rest) {
      TokenSkipped(s, w, rest);
      WordEnds(w, rest);
      assert (w + rest)[..|w|] == w && (w + rest)[|w|..] == rest;
    }
  }

  // ----- words

  /** A word before another token has ended. */
  lemma {:induction false} EndsBefore(s: string, token: string, rest: string)
    requires Token(s, token, rest) && token != "" && !IsWordChar(token[0])
    ensures Ends(s)
  {
    var n: nat :| n <= |s| && AllSpaces(s[..n]) && s[n..] == token + rest;
    if n == 0 {
      assert (token + rest)[0] == token[0];
    } else {
      assert s[..n][0] == s[0];
    }
  }

  lemma {:induction false} SpacesEnd(s: string)
    requires AllSpaces(s)
    ensures Ends(s) && Skip(s) == ""
  {
    assert s[..|s|] == s && s[|s|..] == "";
    SkipsSpaces(s, |s|);
    if s != "" {
      assert s[0] in {' ', '\t', '\r', '\n'};
    }
  }

  lemma {:induction false} NumeralUnsigned(word: string, n: nat, bound: nat)
    requires IsWord(word)
    ensures Unsigned(word, Ten, bound) == Some(n) <==> Numeral(word, n, bound)
  {
    assert IsWordChar(word[0]);
  }

  lemma {:induction false} IntegerToken(word: string, n: nat, bound: nat, s: string, rest: string)
    requires Numeral(word, n, bound) && Token(s, word, rest) && Ends(rest)
    ensures ParseInteger(bound, s) == Done(n, rest)
  {
    NumeralUnsigned(word, n, bound);
    WordToken(word, s, rest);
    hide Unsigned, ParseWord, Numeral;
  }

  lemma {:induction false} IntegerRead(s: string, bound: nat) returns (word: string)
    requires ParseInteger(bound, s).Done?
    ensures var parsed := ParseInteger(bound, s);
            Numeral(word, parsed.value, bound) && Token(s, word, parsed.rest)
  {
    word := ParseWord(s).value;
    WordToken(word, s, ParseWord(s).rest);
    hide ParseWord, Numeral;
    NumeralUnsigned(word, Unsigned(word, Ten, bound).value, bound);
  }

  lemma {:induction false} ElementNamed(element: Element, word: string)
    ensures ElementWord(element, word) <==>
            && IsIdentifier(word)
            && element == if ScalarNamed(word).Some? then IntegerElement(ScalarNamed(word).value) else StructElement(word)
  {
    if element.IntegerElement? {
      NamedByWidth(element.scalar, word);
      ScalarNames(element);
      hide Digits, ScalarName, ScalarNamed, IsIdentifier;
    }
  }

  lemma {:induction false} ElementToken(element: Element, word: string, s: string, rest: string)
    requires ElementWord(element, word) && Token(s, word, rest) && Ends(rest)
    ensures ParseElement(s) == Done(element, rest) && IsWord(word)
  {
    ElementNamed(element, word);
    WordToken(word, s, rest);
    hide ParseWord, ScalarNamed, ElementWord;
  }

  lemma {:induction false} IdentifierToken(name: string, s: string, rest: string)
    requires IsIdentifier(name) && Token(s, name, rest) && Ends(rest)
    ensures ParseIdentifier(s) == Done(name, rest)
  {
    WordToken(name, s, rest);
    hide ParseWord;
  }

  lemma {:induction false} IdentifierRead(s: string)
    requires ParseIdentifier(s).Done?
    ensures var name := ParseIdentifier(s); IsIdentifier(name.value) && Token(s, name.value, name.rest)
  {
    ParsedWord(s);
    WordToken(ParseWord(s).value, s, ParseWord(s).rest);
    hide ParseWord;
  }

  lemma {:induction false} ElementRead(s: string) returns (word: string)
    requires ParseElement(s).Done?
    ensures var element := ParseElement(s); ElementWord(element.value, word) && Token(s, word, element.rest)
  {
    word := ParseIdentifier(s).value;
    IdentifierRead(s);
    hide ParseIdentifier, ScalarNamed, ElementWord;
    ElementNamed(ParseElement(s).value, word);
  }

  // ----- what is read is spelled

  lemma {:induction false} Ahead(s: string, token: Lexeme, next: string, others: Lexemes)
    requires Token(s, token.Text(), next) && Reads(next, others)
    ensures Reads(s, More(token, others))
  {
  }

  lemma {:induction false} AtEnd(s: string)
    requires AllSpaces(s)
    ensures Reads(s, End)
  {
  }

  lemma {:induction false} VariantRead(s: string, tail: Lexemes) returns (tokens: Lexemes)
    requires ParseVariant(s).Done? && Reads(ParseVariant(s).rest, tail)
    ensures VariantTokens(ParseVariant(s).value, tokens, tail) && Reads(s, tokens)
  {
    hide ParsePunct, ParseInteger, Token, Numeral, Reads;
    var other, tag := ParsePunct("_", s), ParseInteger(U64_BOUND, s);
    var middle := if other.Done? then other.rest else tag.rest;
    var first := Otherwise;
    if other.Done? {
      PunctRead("_", s);
    } else {
      var word := IntegerRead(s, U64_BOUND);
      first := Word(word);
    }
    var arrow := ParsePunct("=>", middle);
    var width := IntegerRead(arrow.rest, U16_BOUND);
    PunctRead("=>", middle);
    Ahead(arrow.rest, Word(width), ParseVariant(s).rest, tail);
    Ahead(middle, Arrow, arrow.rest, More(Word(width), tail));
    Ahead(s, first, middle, More(Arrow, More(Word(width), tail)));
    tokens := More(first, More(Arrow, More(Word(width), tail)));
  }

  lemma {:induction false} VariantsRead(s: string, tail: Lexemes) returns (tokens: Lexemes)
    requires ParseVariants(s).Done? && Reads(ParseVariants(s).rest, tail)
    ensures VariantsTokens(ParseVariants(s).value, tokens, tail) && Reads(s, tokens)
    decreases |s|
  {
    hide ParseVariant, ParsePunct, VariantTokens, Reads, Token;
    var first := ParseVariant(s);
    var comma := ParsePunct(",", first.rest);
    if comma.Done? && ParseVariants(comma.rest).Done? {
      var others := VariantsRead(comma.rest, tail);
      PunctRead(",", first.rest);
      Ahead(first.rest, Comma, comma.rest, others);
      tokens := VariantRead(s, More(Comma, others));
      OneMoreVariant(first.value, ParseVariants(comma.rest).value, tokens, others, tail);
    } else {
      tokens := VariantRead(s, tail);
    }
  }

  lemma {:induction false} OneMoreVariant(first: Variant, variants: seq<Variant>, tokens: Lexemes, others: Lexemes,
                                          tail: Lexemes)
    requires VariantTokens(first, tokens, More(Comma, others)) && VariantsTokens(variants, others, tail)
    ensures VariantsTokens([first] + variants, tokens, tail)
  {
    hide VariantTokens;
    assert ([first] + variants)[1..] == variants;
  }

  lemma {:induction false} ArrayRead(s: string) returns (tokens: Lexemes)
    requires ParseArray(s).Done? && AllSpaces(ParseArray(s).rest)
    ensures TypeTokens(ParseArray(s).value, tokens) && Reads(s, tokens)
  {
    hide ParsePunct, ParseElement, ParseWord, Unsigned, Token, ElementWord, IsWord, ParseCapacity, Numeral, CapacityTokens,
      AllSpaces, Reads;
    var open := ParsePunct("[", s);
    var named := ParseElement(open.rest);
    var semicolon := ParsePunct(";", named.rest);
    var counted := ParseWord(semicolon.rest);
    var close := ParsePunct("]", counted.rest);
    var len := Unsigned(counted.value, Ten, U16_BOUND);
    var more := End;
    if len.Some? {
      WordToken(counted.value, semicolon.rest, counted.rest);
      NumeralUnsigned(counted.value, len.value, U16_BOUND);
      AtEnd(close.rest);
    } else {
      more := CapacityRead(named.value, counted.value, close.rest);
    }
    PunctRead("[", s);
    var word := ElementRead(open.rest);
    PunctRead(";", named.rest);
    WordToken(counted.value, semicolon.rest, counted.rest);
    PunctRead("]", counted.rest);
    var last := More(CloseBracket, more);
    Ahead(counted.rest, CloseBracket, close.rest, more);
    Ahead(semicolon.rest, Word(counted.value), counted.rest, last);
    Ahead(named.rest, Semicolon, semicolon.rest, More(Word(counted.value), last));
    Ahead(open.rest, Word(word), named.rest, More(Semicolon, More(Word(counted.value), last)));
    Ahead(s, OpenBracket, open.rest, More(Word(word), More(Semicolon, More(Word(counted.value), last))));
    tokens := More(OpenBracket, More(Word(word), More(Semicolon, More(Word(counted.value), last))));
  }

  lemma {:induction false} CapacityRead(element: Element, count: string, s: string) returns (tokens: Lexemes)
    requires ParseCapacity(element, count, s).Done? && AllSpaces(ParseCapacity(element, count, s).rest)
    ensures ParseCapacity(element, count, s).value.CountedField?
    ensures var field := ParseCapacity(element, count, s).value;
            field == CountedField(element, count, field.capacity) && CapacityTokens(field.capacity, tokens)
    ensures Reads(s, tokens)
  {
    hide ParsePunct, ParseInteger, Token, Numeral, Reads, AllSpaces;
    var open := ParsePunct("(", s);
    var keyword := ParsePunct("capacity", open.rest);
    var parsed := ParseInteger(U16_BOUND, keyword.rest);
    var close := ParsePunct(")", parsed.rest);
    PunctRead("(", s);
    PunctRead("capacity", open.rest);
    var word := IntegerRead(keyword.rest, U16_BOUND);
    PunctRead(")", parsed.rest);
    AtEnd(close.rest);
    Ahead(parsed.rest, CloseParen, close.rest, End);
    Ahead(keyword.rest, Word(word), parsed.rest, More(CloseParen, End));
    Ahead(open.rest, CapacityWord, keyword.rest, More(Word(word), More(CloseParen, End)));
    Ahead(s, OpenParen, open.rest, More(CapacityWord, More(Word(word), More(CloseParen, End))));
    tokens := More(OpenParen, More(CapacityWord, More(Word(word), More(CloseParen, End))));
  }

  lemma {:induction false} UnionRead(s: string) returns (tokens: Lexemes)
    requires ParseUnion(s).Done? && AllSpaces(ParseUnion(s).rest)
    ensures TypeTokens(ParseUnion(s).value, tokens) && Reads(s, tokens)
  {
    hide ParsePunct, ParseIdentifier, ParseVariants, Token, Reads, IsIdentifier, VariantsTokens, AllSpaces;
    var keyword := ParsePunct("union", s);
    var open := ParsePunct("(", keyword.rest);
    var named := ParseIdentifier(open.rest);
    var close := ParsePunct(")", named.rest);
    var brace := ParsePunct("{", close.rest);
    var variants := ParseVariants(brace.rest);
    var end := ParsePunct("}", variants.rest);
    AtEnd(end.rest);
    PunctRead("}", variants.rest);
    Ahead(variants.rest, CloseBrace, end.rest, End);
    var others := VariantsRead(brace.rest, More(CloseBrace, End));
    PunctRead("{", close.rest);
    PunctRead(")", named.rest);
    IdentifierRead(open.rest);
    PunctRead("(", keyword.rest);
    PunctRead("union", s);
    Ahead(close.rest, OpenBrace, brace.rest, others);
    Ahead(named.rest, CloseParen, close.rest, More(OpenBrace, others));
    Ahead(open.rest, Word(named.value), named.rest, More(CloseParen, More(OpenBrace, others)));
    Ahead(keyword.rest, OpenParen, open.rest, More(Word(named.value), More(CloseParen, More(OpenBrace, others))));
    Ahead(s, UnionWord, keyword.rest, More(OpenParen, More(Word(named.value), More(CloseParen, More(OpenBrace, others)))));
    tokens := More(UnionWord, More(OpenParen, More(Word(named.value), More(CloseParen, More(OpenBrace, others)))));
  }

  lemma {:induction false} ScalarOrStructRead(s: string) returns (tokens: Lexemes)
    requires ParseScalarOrStruct(s).Done? && AllSpaces(ParseScalarOrStruct(s).rest)
    ensures TypeTokens(ParseScalarOrStruct(s).value, tokens) && Reads(s, tokens)
  {
    hide ParseElement, Token, ElementWord, Reads, SkipOptional, AllSpaces;
    var element := ParseElement(s);
    var word := ElementRead(s);
    var more := End;
    if element.value.IntegerElement? && SkipOptional(element.rest).Some? {
      more := OptionalRead(element.rest);
    } else {
      AtEnd(element.rest);
    }
    Ahead(s, Word(word), element.rest, more);
    tokens := More(Word(word), more);
  }

  lemma {:induction false} OptionalRead(s: string) returns (tokens: Lexemes)
    requires SkipOptional(s).Some? && AllSpaces(SkipOptional(s).value)
    ensures tokens == More(OpenParen, More(OptionalWord, More(CloseParen, End))) && Reads(s, tokens)
  {
    hide ParsePunct, Token, Reads, AllSpaces;
    var open := ParsePunct("(", s);
    var keyword := ParsePunct("optional", open.rest);
    var close := ParsePunct(")", keyword.rest);
    PunctRead("(", s);
    PunctRead("optional", open.rest);
    PunctRead(")", keyword.rest);
    AtEnd(close.rest);
    Ahead(keyword.rest, CloseParen, close.rest, End);
    Ahead(open.rest, OptionalWord, keyword.rest, More(CloseParen, End));
    Ahead(s, OpenParen, open.rest, More(OptionalWord, More(CloseParen, End)));
    tokens := More(OpenParen, More(OptionalWord, More(CloseParen, End)));
  }

  lemma {:induction false} TypeRead(s: string) returns (tokens: Lexemes)
    requires ParseType(s).Done? && AllSpaces(ParseType(s).rest)
    ensures TypeTokens(ParseType(s).value, tokens) && Reads(s, tokens)
  {
    hide ParseArray, ParseUnion, ParseScalarOrStruct, TypeTokens, Reads;
    if ParseArray(s).Done? {
      tokens := ArrayRead(s);
    } else if ParseUnion(s).Done? {
      tokens := UnionRead(s);
    } else {
      tokens := ScalarOrStructRead(s);
    }
  }

  lemma {:induction false} FieldRead(s: string) returns (tokens: Lexemes)
    requires Parse(s).Some?
    ensures FieldTokens(Parse(s).value, tokens) && Reads(s, tokens)
  {
    var name := ParseIdentifier(s);
    var colon := ParsePunct(":", name.rest);
    IdentifierRead(s);
    PunctRead(":", name.rest);
    var rest := ParseType(colon.rest).rest;
    var n := Skipped(rest);
    assert n == |rest| && rest[..n] == rest;
    hide ParseIdentifier, ParsePunct, ParseType, Token, TypeTokens, Reads, IsIdentifier, AllSpaces;
    var ty := TypeRead(colon.rest);
    Ahead(name.rest, Colon, colon.rest, ty);
    Ahead(s, Word(name.value), name.rest, More(Colon, ty));
    tokens := More(Word(name.value), More(Colon, ty));
  }

  // ----- what is spelled is read

  lemma {:induction false} Next(s: string, tokens: Lexemes) returns (next: string)
    requires Reads(s, tokens) && tokens.More?
    ensures Token(s, tokens.first.Text(), next) && Reads(next, tokens.others)
  {
    hide Token;
    next :| Token(s, tokens.first.Text(), next) && Reads(next, tokens.others);
  }

  /** Tokens before which a word has ended. */
  predicate EndsWord(tokens: Lexemes) {
    tokens.End? || tokens.first in {Colon, Semicolon, Comma, Arrow, CloseBracket, OpenParen, CloseParen, CloseBrace}
  }

  lemma {:induction false} EndsThere(s: string, tokens: Lexemes)
    requires Reads(s, tokens) && EndsWord(tokens)
    ensures Ends(s)
  {
    if tokens.End? {
      SpacesEnd(s);
    } else {
      var next := Next(s, tokens);
      EndsBefore(s, tokens.first.Text(), next);
    }
  }

  lemma {:induction false} OtherToken(token: string, s: string, first: string, next: string)
    requires Token(s, first, next) && first != "" && token != "" && first[0] != token[0] && !IsSpace(first[0])
    ensures ParsePunct(token, s).Backtrack?
  {
    TokenSkipped(s, first, next);
    assert (first + next)[0] == first[0];
  }

  lemma {:induction false} NumeralFirst(word: string, n: nat, bound: nat)
    requires Numeral(word, n, bound)
    ensures word != "" && word[0] != '_'
  {
    FirstDigit(word);
  }

  lemma {:induction false} FirstDigit(word: string)
    requires word != "" && Number(word, Ten).Some?
    ensures DigitValue(word[0], Ten).Some?
  {
    var last := |word| - 1;
    if last > 0 {
      assert word[..last][0] == word[0];
      FirstDigit(word[..last]);
    }
  }

  lemma {:induction false} VariantFound(variant: Variant, s: string, tokens: Lexemes, tail: Lexemes) returns (next: string)
    requires VariantTokens(variant, tokens, tail) && Reads(s, tokens) && EndsWord(tail)
    ensures ParseVariant(s) == Done(variant, next) && Reads(next, tail)
  {
    hide ParsePunct, ParseInteger, Token, Numeral, Reads;
    var a := Next(s, tokens);
    var b := Next(a, tokens.others);
    next := Next(b, tokens.others.others);
    EndsThere(a, tokens.others);
    EndsThere(next, tail);
    PunctToken("=>", a, b);
    IntegerToken(tokens.others.others.first.text, variant.width, U16_BOUND, b, next);
    match variant.tag {
      case None => PunctToken("_", s, a);
      case Some(n) =>
        var word := tokens.first.text;
        NumeralFirst(word, n, U64_BOUND);
        NumeralStarts(word, n, U64_BOUND);
        OtherToken("_", s, word, a);
        IntegerToken(word, n, U64_BOUND, s, a);
    }
  }

  lemma {:induction false} NumeralStarts(word: string, n: nat, bound: nat)
    requires Numeral(word, n, bound)
    ensures word != "" && !IsSpace(word[0])
  {
    assert IsWordChar(word[0]);
  }

  lemma {:induction false} VariantsFound(variants: seq<Variant>, s: string, tokens: Lexemes, tail: Lexemes)
    returns (next: string)
    requires VariantsTokens(variants, tokens, tail) && Reads(s, tokens) && tail.More? && tail.first == CloseBrace
    ensures ParseVariants(s) == Done(variants, next) && Reads(next, tail)
  {
    hide ParseVariant, ParsePunct, VariantTokens, Reads, Token;
    if |variants| == 1 {
      next := VariantFound(variants[0], s, tokens, tail);
      var after := Next(next, tail);
      OtherToken(",", next, "}", after);
      assert variants == [variants[0]];
    } else {
      var others :|
        VariantTokens(variants[0], tokens, More(Comma, others)) && VariantsTokens(variants[1..], others, tail);
      var first := VariantFound(variants[0], s, tokens, More(Comma, others));
      var comma := Next(first, More(Comma, others));
      PunctToken(",", first, comma);
      next := VariantsFound(variants[1..], comma, others, tail);
      assert variants == [variants[0]] + variants[1..];
    }
  }

  lemma {:induction false} ArrayFound(ty: FieldType, s: string, tokens: Lexemes) returns (next: string)
    requires ty.ArrayField? || ty.CountedField?
    requires TypeTokens(ty, tokens) && Reads(s, tokens)
    ensures ParseArray(s) == Done(ty, next) && AllSpaces(next)
  {
    hide ParsePunct, ParseElement, ParseWord, Unsigned, Token, ElementWord, IsWord, ParseCapacity, Numeral, CapacityTokens,
      AllSpaces, Reads;
    var word := tokens.others.first.text;
    var counted := tokens.others.others.others;
    var count := counted.first.text;
    var a := Next(s, tokens);
    var b := Next(a, tokens.others);
    var c := Next(b, tokens.others.others);
    var d := Next(c, counted);
    var e := Next(d, counted.others);
    EndsThere(b, tokens.others.others);
    EndsThere(d, counted.others);
    PunctToken("[", s, a);
    ElementToken(ty.element, word, a, b);
    PunctToken(";", b, c);
    if ty.ArrayField? {
      NumeralIsWord(count, ty.len, U16_BOUND);
    }
    WordToken(count, c, d);
    PunctToken("]", d, e);
    if ty.ArrayField? {
      NumeralUnsigned(count, ty.len, U16_BOUND);
      next := e;
      NothingMore(next);
    } else {
      next := CapacityFound(ty.element, count, ty.capacity, e, counted.others.others);
    }
  }

  lemma {:induction false} NumeralIsWord(word: string, n: nat, bound: nat)
    requires Numeral(word, n, bound)
    ensures IsWord(word)
  {
  }

  lemma {:induction false} NothingMore(s: string)
    requires Reads(s, End)
    ensures AllSpaces(s)
  {
  }

  lemma {:induction false} CapacityFound(element: Element, count: string, capacity: u16, s: string, tokens: Lexemes)
    returns (next: string)
    requires CapacityTokens(capacity, tokens) && Reads(s, tokens)
    ensures ParseCapacity(element, count, s) == Done(CountedField(element, count, capacity), next) && AllSpaces(next)
  {
    hide ParsePunct, ParseInteger, Token, Numeral, Reads, AllSpaces;
    var a := Next(s, tokens);
    var b := Next(a, tokens.others);
    var c := Next(b, tokens.others.others);
    next := Next(c, tokens.others.others.others);
    EndsThere(c, tokens.others.others.others);
    PunctToken("(", s, a);
    PunctToken("capacity", a, b);
    IntegerToken(tokens.others.others.first.text, capacity, U16_BOUND, b, c);
    PunctToken(")", c, next);
    NothingMore(next);
  }

  lemma {:induction false} UnionFound(ty: FieldType, s: string, tokens: Lexemes) returns (next: string)
    requires ty.UnionField? && TypeTokens(ty, tokens) && Reads(s, tokens)
    ensures ParseUnion(s) == Done(ty, next) && AllSpaces(next) && ParseArray(s).Backtrack?
  {
    hide ParsePunct, ParseIdentifier, ParseVariants, Token, Reads, IsIdentifier, VariantsTokens, AllSpaces;
    var named := tokens.others.others;
    var more := named.others.others.others;
    var a := Next(s, tokens);
    var b := Next(a, tokens.others);
    var c := Next(b, named);
    var d := Next(c, named.others);
    var e := Next(d, named.others.others);
    EndsThere(c, named.others);
    var f := VariantsFound(ty.variants, e, more, More(CloseBrace, End));
    next := Next(f, More(CloseBrace, End));
    OtherToken("[", s, "union", a);
    PunctToken("union", s, a);
    PunctToken("(", a, b);
    IdentifierToken(ty.selector, b, c);
    PunctToken(")", c, d);
    PunctToken("{", d, e);
    PunctToken("}", f, next);
    NothingMore(next);
  }

  /** A structure or an integer is no union, even where its name begins like one. */
  lemma {:induction false} NoUnion(word: string, s: string, next: string)
    requires IsIdentifier(word) && Token(s, word, next) && Ends(next) && (AllSpaces(next) || !("union" <= word))
    ensures ParseUnion(s).Backtrack?
  {
    TokenSkipped(s, word, next);
    assert IsWordChar(word[0]);
    UnionInWord(word, next);
    if "union" <= word {
      SpacesEnd(next);
      AfterUnion(word, next);
    }
  }

  lemma {:induction false} UnionInWord(word: string, next: string)
    requires Ends(next)
    ensures "union" <= word + next ==> "union" <= word
  {
    if "union" <= word + next {
      assert next != "" ==> (word + next)[|word|] == next[0];
      assert forall i | 0 <= i < 5 :: (word + next)[i] == "union"[i] && IsWordChar("union"[i]);
      assert (word + next)[..5] == word[..5];
    }
  }

  lemma {:induction false} AfterUnion(word: string, next: string)
    requires IsWord(word) && "union" <= word && Skip(next) == ""
    ensures ParsePunct("(", (word + next)[5..]).Backtrack?
  {
    assert (word + next)[5..] == word[5..] + next;
    if word[5..] != "" {
      assert (word + next)[5] == word[5] && IsWordChar(word[5]);
    } else {
      assert word[5..] + next == next;
    }
  }

  lemma {:induction false} ElementIdentifier(element: Element, word: string)
    requires ElementWord(element, word)
    ensures IsIdentifier(word) && IsWordChar(word[0]) && (element.IntegerElement? ==> !("union" <= word))
  {
    ElementNamed(element, word);
    hide ElementWord;
    assert IsWordChar(word[0]);
  }

  lemma {:induction false} ScalarOrStructFound(ty: FieldType, s: string, tokens: Lexemes) returns (next: string)
    requires ty.ScalarField? || ty.StructField? || ty.OptionalField?
    requires TypeTokens(ty, tokens) && Reads(s, tokens)
    ensures ParseScalarOrStruct(s) == Done(ty, next) && AllSpaces(next)
    ensures ParseArray(s).Backtrack? && ParseUnion(s).Backtrack?
  {
    hide ParseElement, ParseUnion, ParsePunct, Token, ElementWord, Reads, SkipOptional, AllSpaces, IsIdentifier, IsWordChar;
    var word := tokens.first.text;
    var element := match ty
      case ScalarField(scalar) => IntegerElement(scalar)
      case OptionalField(scalar) => IntegerElement(scalar)
      case StructField(name) => StructElement(name)
      case _ => StructElement("");
    next := Next(s, tokens);
    EndsThere(next, tokens.others);
    ElementIdentifier(element, word);
    NoBracket(word, s, next);
    ElementToken(element, word, s, next);
    if ty.OptionalField? {
      NoUnion(word, s, next);
      next := OptionalFound(next, tokens.others);
    } else {
      NothingMore(next);
      NoUnion(word, s, next);
      NoOptional(next);
    }
  }

  lemma {:induction false} NoBracket(word: string, s: string, next: string)
    requires Token(s, word, next) && IsIdentifier(word) && IsWordChar(word[0])
    ensures ParseArray(s).Backtrack?
  {
    OtherToken("[", s, word, next);
  }

  lemma {:induction false} NoOptional(s: string)
    requires AllSpaces(s)
    ensures SkipOptional(s).None?
  {
    SpacesEnd(s);
  }

  lemma {:induction false} OptionalFound(s: string, tokens: Lexemes) returns (next: string)
    requires tokens == More(OpenParen, More(OptionalWord, More(CloseParen, End))) && Reads(s, tokens)
    ensures SkipOptional(s) == Some(next) && AllSpaces(next)
  {
    hide ParsePunct, Token, Reads, AllSpaces;
    var a := Next(s, tokens);
    var b := Next(a, tokens.others);
    next := Next(b, tokens.others.others);
    PunctToken("(", s, a);
    PunctToken("optional", a, b);
    PunctToken(")", b, next);
    NothingMore(next);
  }

  lemma {:induction false} FieldFound(field: Field, s: string, tokens: Lexemes)
    requires FieldTokens(field, tokens) && Reads(s, tokens)
    ensures Parse(s) == Some(field)
  {
    hide ParseIdentifier, ParsePunct, ParseArray, ParseUnion, ParseScalarOrStruct, Token, TypeTokens, Reads, IsIdentifier,
      AllSpaces, Skip;
    var a := Next(s, tokens);
    var b := Next(a, tokens.others);
    EndsThere(a, tokens.others);
    IdentifierToken(field.name, s, a);
    PunctToken(":", a, b);
    var ty, more := field.ty, tokens.others.others;
    var next: string;
    match ty {
      case ArrayField(_, _) => next := ArrayFound(ty, b, more);
      case CountedField(_, _, _) => next := ArrayFound(ty, b, more);
      case UnionField(_, _) => next := UnionFound(ty, b, more);
      case _ => next := ScalarOrStructFound(ty, b, more);
    }
    SpacesEnd(next);
  }

  /** A text is read as a field exactly if it is the field's tokens, with any whitespace
      around each. */
  lemma {:induction false} ReadExactly(s: string, field: Field)
    ensures Parse(s) == Some(field) <==> exists tokens :: FieldTokens(field, tokens) && Reads(s, tokens)
  {
    hide Parse, FieldTokens, Reads;
    if Parse(s) == Some(field) {
      var tokens := FieldRead(s);
    }
    if tokens :| FieldTokens(field, tokens) && Reads(s, tokens) {
      FieldFound(field, s, tokens);
    }
  }
}

/** Documented values in text (crates/stm32wb-catalog/src/domain.rs). */
module DomainItems {
  import opened Options
  import opened Text
  import opened Domains

  const I64_MIN := -0x8000_0000_0000_0000
  const I64_BOUND := 0x8000_0000_0000_0000
  const U64_BOUND := 0x1_0000_0000_0000_0000

  // ----- printing

  function Zeros(n: nat): (s: string)
    ensures |s| == n
  {
    if n == 0 then "" else "0" + Zeros(n - 1)
  }

  /** Zeros before `s`, up to `width` characters. */
  function Pad(s: string, width: nat): string {
    if |s| < width then Zeros(width - |s|) + s else s
  }

  /** A value in hexadecimal, a negative one in two's complement, or in decimal. */
  function ShowValue(value: int, hexDigits: Option<nat>): string
    requires I64_MIN <= value < I64_BOUND
  {
    match hexDigits
    case Some(width) => "0x" + Pad(Digits(if value >= 0 then value else value + U64_BOUND, Sixteen), width)
    case None => if value >= 0 then Decimal(value) else "-" + Decimal(-value)
  }

  /** The program's types: 64-bit values. */
  predicate Representable(item: DomainItem) {
    I64_MIN <= item.first < I64_BOUND && I64_MIN <= item.last < I64_BOUND
  }

  function ShowValues(item: DomainItem): string
    requires Representable(item)
  {
    ShowValue(item.first, item.hexDigits)
    + if item.last != item.first then "..=" + ShowValue(item.last, item.hexDigits) else ""
  }

  function Show(item: DomainItem): string
    requires Representable(item)
  {
    ShowValues(item) + if item.text.Some? then ": " + item.text.value else ""
  }

  // ----- parsing

  /** A signed integer of 64 bits, with an optional sign. */
  function Signed(s: string): Option<int> {
    var negative := s != "" && s[0] == '-';
    var digits := if s != "" && (s[0] == '-' || s[0] == '+') then s[1..] else s;
    var n := Number(digits, Ten);
    if digits == "" || n.None? then None
    else
      var value: int := if negative then -(n.value as int) else n.value;
      if I64_MIN <= value < I64_BOUND then Some(value) else None
  }

  datatype Value = Value(n: int, hexDigits: Option<nat>)

  /** Decimal, or `0x` and up to 16 upper-case hexadecimal digits. */
  function ParseValue(s: string): (value: Option<Value>)
    ensures value.Some? ==> I64_MIN <= value.value.n < I64_BOUND
  {
    if "0x" <= s then
      var digits := s[2..];
      if digits == "" || |digits| > 16 then None else
      var n := Unsigned(digits, Sixteen, U64_BOUND);
      if n.Some? && AllPrintable(digits, Sixteen) && n.value < I64_BOUND then Some(Value(n.value, Some(|digits|))) else None
    else
      var n := Signed(s);
      if n.Some? then Some(Value(n.value, None)) else None
  }

  /** What is before and after the first `separator`. */
  function SplitOnce(s: string, separator: string): Option<(string, string)> {
    if separator <= s then Some(("", s[|separator|..]))
    else if s == "" then None
    else
      var rest := SplitOnce(s[1..], separator);
      if rest.Some? then Some((s[..1] + rest.value.0, rest.value.1)) else None
  }

  function ParseValues(values: string, text: Option<string>): (item: Option<DomainItem>)
    ensures item.Some? ==> Representable(item.value)
  {
    var range := SplitOnce(values, "..=");
    match range
    case None =>
      var first := ParseValue(values);
      if first.None? then None else Some(DomainItem(first.value.n, first.value.n, first.value.hexDigits, text))
    case Some(ends) =>
      var first, last := ParseValue(ends.0), ParseValue(ends.1);
      if first.None? || last.None? || first.value.hexDigits.Some? != last.value.hexDigits.Some? then None
      else Some(DomainItem(first.value.n, last.value.n, first.value.hexDigits, text))
  }

  /** An item, written exactly as it is printed. */
  function Parse(source: string): (item: Option<DomainItem>)
    ensures item.Some? ==> Representable(item.value)
  {
    var labelled := SplitOnce(source, ": ");
    var item := match labelled
      case None => ParseValues(source, None)
      case Some(parts) => ParseValues(parts.0, Some(parts.1));
    if item.None? || item.value.first > item.value.last || Show(item.value) != source then None else item
  }

  // ----- digits

  function Power16(d: nat): nat {
    if d == 0 then 1 else 16 * Power16(d - 1)
  }

  lemma {:induction false} DigitsFit(n: nat, d: nat)
    requires d > 0
    ensures |Digits(n, Sixteen)| <= d <==> n < Power16(d)
    decreases d
  {
    if d == 1 {
      assert Power16(1) == 16;
      assert n >= 16 ==> |Digits(Sixteen.High(n), Sixteen)| >= 1;
    } else {
      DigitsFit(Sixteen.High(n), d - 1);
      assert n < 16 ==> n < Power16(d) by {
        PowerGrows(d);
      }
    }
  }

  lemma {:induction false} PowerGrows(d: nat)
    requires d > 0
    ensures Power16(d) >= 16
  {
    if d > 1 {
      PowerGrows(d - 1);
    }
  }

  lemma {:induction false} ZerosAreNothing(n: nat, s: string)
    ensures Number(Zeros(n) + s, Sixteen) == Number(s, Sixteen)
    ensures AllPrintable(Zeros(n) + s, Sixteen) <==> AllPrintable(s, Sixteen)
    decreases |s| + n
  {
    var all := Zeros(n) + s;
    ZerosOnly(n);
    assert AllPrintable(all, Sixteen) <==> AllPrintable(s, Sixteen) by {
      if AllPrintable(all, Sixteen) {
        forall i | 0 <= i < |s| ensures Printable(s[i], Sixteen) {
          assert all[n + i] == s[i];
        }
      }
    }
    if s == "" {
      assert all == Zeros(n);
    } else {
      var last := |s| - 1;
      assert all[..|all| - 1] == Zeros(n) + s[..last] && all[|all| - 1] == s[last];
      ZerosAreNothing(n, s[..last]);
    }
  }

  lemma {:induction false} ZerosOnly(n: nat)
    ensures Number(Zeros(n), Sixteen) == Some(0)
    ensures forall i | 0 <= i < n :: Zeros(n)[i] == '0'
    decreases n
  {
    if n > 0 {
      ZerosOnly(n - 1);
      assert Zeros(n) == Zeros(n - 1) + "0" by {
        forall i | 0 <= i < n ensures Zeros(n)[i] == '0' {
        }
      }
      NumberAppend(Zeros(n - 1), '0', Sixteen);
    }
  }

  lemma {:induction false} PaddedDenotes(n: nat, width: nat)
    ensures var s := Pad(Digits(n, Sixteen), width);
            && Number(s, Sixteen) == Some(n) && AllPrintable(s, Sixteen) && s != ""
            && |s| == if |Digits(n, Sixteen)| < width then width else |Digits(n, Sixteen)|
  {
    var digits := Digits(n, Sixteen);
    DigitsDenote(n, Sixteen);
    if |digits| < width {
      ZerosAreNothing(width - |digits|, digits);
    }
  }

  lemma {:induction false} NoSign(s: string, bound: nat)
    requires s != "" && AllPrintable(s, Sixteen)
    ensures Unsigned(s, Sixteen, bound) == Bounded(Number(s, Sixteen), bound)
  {
    assert Printable(s[0], Sixteen);
  }

  // ----- one value

  /** Values with `digits` hexadecimal digits that read back as written. */
  predicate HexValue(value: int, width: nat) {
    0 <= value < I64_BOUND && width <= 16
  }

  lemma {:induction false} HexParsed(value: int, width: nat)
    requires HexValue(value, width)
    ensures ParseValue(ShowValue(value, Some(width))).Some?
    ensures var parsed := ParseValue(ShowValue(value, Some(width))).value;
            && parsed.n == value && parsed.hexDigits.Some?
            && (parsed.hexDigits == Some(width) <==> width > 0 && value < Power16(width))
  {
    var s := Pad(Digits(value, Sixteen), width);
    PaddedDenotes(value, width);
    NoSign(s, U64_BOUND);
    SixteenDigits(value);
    if width > 0 {
      DigitsFit(value, width);
    }
    assert ("0x" + s)[2..] == s && "0x" <= "0x" + s;
    hide Pad, Number, Digits, Unsigned, AllPrintable, Power16;
  }

  lemma {:induction false} SixteenDigits(value: int)
    requires 0 <= value < I64_BOUND
    ensures |Digits(value, Sixteen)| <= 16
  {
    DigitsFit(value, 16);
    PowersOf16();
  }

  lemma {:induction false} PowersOf16()
    ensures Power16(16) == U64_BOUND
  {
    assert Power16(4) == 0x1_0000;
    assert Power16(8) == 0x1_0000_0000;
    assert Power16(12) == 0x1_0000_0000_0000;
  }

  lemma {:induction false} DecimalDigits(n: nat)
    ensures Number(Decimal(n), Ten) == Some(n) && Decimal(n) != "" && IsDigit(Decimal(n)[0])
    ensures |Decimal(n)| > 1 ==> IsDigit(Decimal(n)[1])
  {
    DigitsDenote(n, Ten);
    hide Number, Digits;
    assert Printable(Decimal(n)[0], Ten);
    assert |Decimal(n)| > 1 ==> Printable(Decimal(n)[1], Ten);
  }

  lemma {:induction false} SignedPositive(n: nat)
    requires n < I64_BOUND
    ensures Signed(Decimal(n)) == Some(n) && !("0x" <= Decimal(n))
  {
    DecimalDigits(n);
    hide Number, Digits;
  }

  lemma {:induction false} SignedNegative(n: nat)
    requires n <= I64_BOUND
    ensures Signed("-" + Decimal(n)) == Some(0 - n) && !("0x" <= "-" + Decimal(n))
  {
    DecimalDigits(n);
    hide Number, Digits;
    var s := "-" + Decimal(n);
    assert s[1..] == Decimal(n) && s[0] == '-';
  }

  lemma {:induction false} DecimalParsed(value: int)
    requires I64_MIN <= value < I64_BOUND
    ensures ParseValue(ShowValue(value, None)) == Some(Value(value, None))
  {
    hide Signed, Digits;
    if value >= 0 {
      SignedPositive(value);
    } else {
      SignedNegative(-value);
    }
  }

  // ----- no separator inside a value

  predicate Without(s: string, c: char) {
    forall i | 0 <= i < |s| :: s[i] != c
  }

  lemma {:induction false} SplitAtFirst(before: string, separator: string, after: string)
    requires separator != "" && Without(before, separator[0])
    ensures SplitOnce(before + separator + after, separator) == Some((before, after))
  {
    var s := before + separator + after;
    if before == "" {
      assert s == separator + after && s[..|separator|] == separator && s[|separator|..] == after;
    } else {
      assert s[0] == before[0];
      assert s[1..] == before[1..] + separator + after;
      SplitAtFirst(before[1..], separator, after);
      assert s[..1] + before[1..] == before;
    }
  }

  lemma {:induction false} NothingToSplit(s: string, separator: string)
    requires separator != "" && Without(s, separator[0])
    ensures SplitOnce(s, separator) == None
  {
    if s != "" {
      NothingToSplit(s[1..], separator);
    }
  }

  lemma {:induction false} PrintableWithout(s: string, radix: Radix, c: char)
    requires AllPrintable(s, radix) && !Printable(c, radix)
    ensures Without(s, c)
  {
    forall i | 0 <= i < |s| ensures s[i] != c {
      assert Printable(s[i], radix);
    }
  }

  lemma {:induction false} ConcatWithout(a: string, b: string, c: char)
    requires Without(a, c) && Without(b, c)
    ensures Without(a + b, c)
  {
  }

  lemma {:induction false} ValueWithout(value: int, hexDigits: Option<nat>, c: char)
    requires I64_MIN <= value < I64_BOUND && (c == ':' || c == '.')
    ensures Without(ShowValue(value, hexDigits), c)
  {
    match hexDigits {
      case Some(width) =>
        var n := if value >= 0 then value else value + U64_BOUND;
        PaddedDenotes(n, width);
        PrintableWithout(Pad(Digits(n, Sixteen), width), Sixteen, c);
        ConcatWithout("0x", Pad(Digits(n, Sixteen), width), c);
      case None =>
        var n := if value >= 0 then value else -value;
        DigitsDenote(n, Ten);
        PrintableWithout(Decimal(n), Ten, c);
        ConcatWithout("-", Decimal(n), c);
    }
  }

  // ----- items

  /** An item the notation can express: an ordered range, whose hexadecimal first value is
      not negative and fits its digits, at most 16 of them. */
  predicate WellFormed(item: DomainItem) {
    && item.first <= item.last
    && (item.hexDigits.Some? ==>
          1 <= item.hexDigits.value <= 16 && 0 <= item.first < Power16(item.hexDigits.value))
  }

  lemma {:induction false} EndsParsed(item: DomainItem)
    requires Representable(item) && WellFormed(item)
    ensures ParseValue(ShowValue(item.first, item.hexDigits)) == Some(Value(item.first, item.hexDigits))
    ensures var last := ParseValue(ShowValue(item.last, item.hexDigits));
            last.Some? && last.value.n == item.last && last.value.hexDigits.Some? == item.hexDigits.Some?
  {
    hide ShowValue, ParseValue, Power16;
    if item.hexDigits.Some? {
      HexParsed(item.first, item.hexDigits.value);
      HexParsed(item.last, item.hexDigits.value);
    } else {
      DecimalParsed(item.first);
      DecimalParsed(item.last);
    }
  }

  lemma {:induction false} ValuesParsed(item: DomainItem)
    requires Representable(item) && WellFormed(item)
    ensures ParseValues(ShowValues(item), item.text) == Some(item)
  {
    hide ShowValue, ParseValue, Power16, WellFormed, SplitOnce, Without;
    var first, last := ShowValue(item.first, item.hexDigits), ShowValue(item.last, item.hexDigits);
    EndsParsed(item);
    ValueWithout(item.first, item.hexDigits, '.');
    if item.first == item.last {
      assert ShowValues(item) == first;
      NothingToSplit(first, "..=");
    } else {
      assert ShowValues(item) == first + "..=" + last;
      SplitAtFirst(first, "..=", last);
    }
  }

  lemma {:induction false} ValuesWithout(item: DomainItem)
    requires Representable(item)
    ensures Without(ShowValues(item), ':')
  {
    var first, last := ShowValue(item.first, item.hexDigits), ShowValue(item.last, item.hexDigits);
    ValueWithout(item.first, item.hexDigits, ':');
    ValueWithout(item.last, item.hexDigits, ':');
    hide ShowValue;
    if item.first != item.last {
      ConcatWithout("..=", last, ':');
      ConcatWithout(first, "..=" + last, ':');
    } else {
      ConcatWithout(first, "", ':');
    }
  }

  lemma {:induction false} PrintedIsParsed(item: DomainItem)
    requires Representable(item) && WellFormed(item)
    ensures Parse(Show(item)) == Some(item)
  {
    ValuesParsed(item);
    ValuesWithout(item);
    hide ShowValues, ParseValues, Power16;
    var values := ShowValues(item);
    if item.text.Some? {
      assert Show(item) == values + ": " + item.text.value;
      SplitAtFirst(values, ": ", item.text.value);
    } else {
      assert Show(item) == values;
      NothingToSplit(values, ": ");
    }
  }

  /** An accepted string is exactly the printed form of its item. */
  lemma {:induction false} AcceptedIsPrinted(source: string)
    requires Parse(source).Some?
    ensures Show(Parse(source).value) == source && WellFormed(Parse(source).value)
  {
    var labelled := SplitOnce(source, ": ");
    var values := if labelled.Some? then labelled.value.0 else source;
    var range := SplitOnce(values, "..=");
    ParsedValue(if range.Some? then range.value.0 else values);
    hide ParseValue, Show, SplitOnce, Power16;
  }

  lemma {:induction false} ParsedValue(s: string)
    ensures var value := ParseValue(s);
            value.Some? && value.value.hexDigits.Some? ==>
              && 1 <= value.value.hexDigits.value <= 16
              && 0 <= value.value.n < Power16(value.value.hexDigits.value)
  {
    if "0x" <= s && ParseValue(s).Some? {
      var digits := s[2..];
      NoSign(digits, U64_BOUND);
      NumberBounded(digits);
    }
  }

  lemma {:induction false} NumberBounded(s: string)
    requires Number(s, Sixteen).Some?
    ensures Number(s, Sixteen).value < Power16(|s|)
  {
    if s != "" {
      NumberBounded(s[..|s| - 1]);
    }
  }

  /** An item is read back from its printed form exactly if it is ordered and a hexadecimal
      first value is not negative and fits its digits; any label is kept. */
  lemma {:induction false} RoundTrips(item: DomainItem)
    requires Representable(item)
    ensures Parse(Show(item)) == Some(item) <==> WellFormed(item)
  {
    hide Parse, Show, WellFormed;
    if WellFormed(item) {
      PrintedIsParsed(item);
    } else if Parse(Show(item)) == Some(item) {
      AcceptedIsPrinted(Show(item));
    }
  }

  // ----- the notation itself

  /** Items as the catalog writes them. */
  lemma {:induction false} DecimalText()
    ensures Show(DomainItem(-30, 20, None, None)) == "-30..=20"
    ensures Show(DomainItem(127, 127, None, Some("none"))) == "127: none"
  {
    assert Decimal(3) == "3" && Decimal(30) == "30" && Decimal(2) == "2" && Decimal(20) == "20";
    assert Decimal(1) == "1" && Decimal(12) == "12" && Decimal(127) == "127";
  }

  lemma {:induction false} HexadecimalText()
    ensures Show(DomainItem(10, 10, Some(2), Some("on"))) == "0x0A: on"
  {
    assert Digits(10, Sixteen) == "A";
    assert Zeros(1) == "0" + Zeros(0) == "0";
    hide Digits, Zeros;
    assert ShowValue(10, Some(2)) == "0x0A";
  }

  lemma {:induction false} HexadecimalRangeText()
    ensures Show(DomainItem(0, 31, Some(1), None)) == "0x0..=0x1F"
  {
    assert Digits(0, Sixteen) == "0" && Digits(1, Sixteen) == "1" && Digits(31, Sixteen) == "1F";
    hide Digits;
    assert ShowValue(0, Some(1)) == "0x0" && ShowValue(31, Some(1)) == "0x1F";
  }
}

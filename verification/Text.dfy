/** Numbers in text, as Rust prints and parses them. */
module Text {
  import opened Options
  import opened Arithmetic

  predicate IsDigit(c: char) {
    '0' <= c <= '9'
  }

  predicate IsUpper(c: char) {
    'A' <= c <= 'Z'
  }

  predicate IsLower(c: char) {
    'a' <= c <= 'z'
  }

  /** Decimal or hexadecimal: literal factors keep the arithmetic linear. */
  datatype Radix = Ten | Sixteen {
    function Base(): nat {
      if Ten? then 10 else 16
    }

    /** `high` followed by one more digit. */
    function Append(high: nat, low: nat): nat {
      if Ten? then 10 * high + low else 16 * high + low
    }

    function High(n: nat): (high: nat)
      ensures n >= Base() ==> 0 < high < n
    {
      if Ten? then n / 10 else n / 16
    }

    function Low(n: nat): (low: nat)
      ensures low < Base() && Append(High(n), low) == n
    {
      if Ten? then n % 10 else n % 16
    }
  }

  function Symbol(d: nat): char
    requires d < 16
  {
    if d < 10 then ('0' as int + d) as char else ('A' as int + (d - 10)) as char
  }

  /** The value of a digit in upper or lower case. */
  function DigitValue(c: char, radix: Radix): Option<nat> {
    var d :=
      if IsDigit(c) then c as int - '0' as int
      else if IsUpper(c) then c as int - 'A' as int + 10
      else if IsLower(c) then c as int - 'a' as int + 10
      else radix.Base();
    if d < radix.Base() then Some(d) else None
  }

  function Digits(n: nat, radix: Radix): (s: string)
    ensures s != ""
    decreases n
  {
    (if n < radix.Base() then "" else Digits(radix.High(n), radix)) + [Symbol(radix.Low(n))]
  }

  function Decimal(n: nat): string {
    Digits(n, Ten)
  }

  /** The number a string of digits denotes. */
  function Number(s: string, radix: Radix): Option<nat> {
    if s == "" then Some(0) else
    var last := |s| - 1;
    var high, low := Number(s[..last], radix), DigitValue(s[last], radix);
    if high.Some? && low.Some? then Some(radix.Append(high.value, low.value)) else None
  }

  function Bounded(n: Option<nat>, bound: nat): Option<nat> {
    if n.Some? && n.value < bound then n else None
  }

  /** An unsigned integer below `bound`, with an optional plus sign. */
  function Unsigned(s: string, radix: Radix, bound: nat): Option<nat> {
    var digits := if s != "" && s[0] == '+' then s[1..] else s;
    if digits == "" then None else Bounded(Number(digits, radix), bound)
  }

  predicate Printable(c: char, radix: Radix) {
    IsDigit(c) || (radix.Sixteen? && IsUpper(c))
  }

  /** Digits as they are printed: no leading zero, no lower case. */
  predicate Canonical(s: string, radix: Radix) {
    s != "" && (s[0] != '0' || |s| == 1) && AllPrintable(s, radix)
  }

  predicate AllPrintable(s: string, radix: Radix) {
    forall i | 0 <= i < |s| :: Printable(s[i], radix)
  }

  lemma {:induction false} SymbolValue(d: nat, radix: Radix)
    requires d < radix.Base()
    ensures DigitValue(Symbol(d), radix) == Some(d)
    ensures Printable(Symbol(d), radix)
    ensures Symbol(d) == '0' <==> d == 0
  {
  }

  lemma {:induction false} NumberAppend(s: string, c: char, radix: Radix)
    ensures Number(s + [c], radix) ==
            var high, low := Number(s, radix), DigitValue(c, radix);
            if high.Some? && low.Some? then Some(radix.Append(high.value, low.value)) else None
  {
    assert (s + [c])[..|s|] == s;
  }

  lemma {:induction false} LastDigit(n: nat, radix: Radix, before: string)
    requires before == if n < radix.Base() then "" else Digits(radix.High(n), radix)
    requires Number(before, radix) == Some(radix.High(n))
    ensures Number(Digits(n, radix), radix) == Some(n)
    ensures Digits(n, radix) == before + [Symbol(radix.Low(n))] && Printable(Symbol(radix.Low(n)), radix)
  {
    hide Number, Symbol, DigitValue, Printable;
    SymbolValue(radix.Low(n), radix);
    NumberAppend(before, Symbol(radix.Low(n)), radix);
  }

  /** Printed digits denote the number, in canonical form. */
  lemma {:induction false} DigitsDenote(n: nat, radix: Radix)
    ensures Number(Digits(n, radix), radix) == Some(n)
    ensures Canonical(Digits(n, radix), radix)
    ensures Digits(n, radix)[0] == '0' <==> n == 0
    decreases n
  {
    if n < radix.Base() {
      assert radix.High(n) == 0;
      LastDigit(n, radix, "");
      SymbolValue(n, radix);
    } else {
      hide Number, Symbol, DigitValue, Printable, Digits;
      var before := Digits(radix.High(n), radix);
      DigitsDenote(radix.High(n), radix);
      LastDigit(n, radix, before);
    }
  }

  lemma {:induction false} SymbolOfValue(c: char, radix: Radix)
    requires DigitValue(c, radix).Some? && !IsLower(c)
    ensures Symbol(DigitValue(c, radix).value) == c
    ensures DigitValue(c, radix).value == 0 <==> c == '0'
  {
  }

  lemma {:induction false} LeadingNonzero(s: string, radix: Radix)
    requires s != "" && Number(s, radix).Some? && s[0] != '0' && AllPrintable(s, radix)
    ensures Number(s, radix).value > 0
  {
    var last := |s| - 1;
    if last > 0 {
      LeadingNonzero(s[..last], radix);
    } else {
      assert s[..0] == "";
      SymbolOfValue(s[0], radix);
    }
  }

  /** A canonical string of digits is the printed form of the number it denotes. */
  lemma {:induction false} DigitsOfNumber(s: string, radix: Radix)
    requires Canonical(s, radix) && Number(s, radix).Some?
    ensures Digits(Number(s, radix).value, radix) == s
  {
    var last := |s| - 1;
    var high, low := Number(s[..last], radix).value, DigitValue(s[last], radix).value;
    assert Printable(s[last], radix);
    SymbolOfValue(s[last], radix);
    assert s == s[..last] + [s[last]];
    if last == 0 {
      assert s[..0] == "";
    } else {
      DigitsOfNumber(s[..last], radix);
      LeadingNonzero(s[..last], radix);
      hide Number, Symbol, Printable, Canonical;
      AppendSplits(high, low, radix);
    }
  }

  lemma {:induction false} AppendSplits(high: nat, low: nat, radix: Radix)
    requires low < radix.Base()
    ensures radix.High(radix.Append(high, low)) == high && radix.Low(radix.Append(high, low)) == low
    ensures high > 0 ==> radix.Append(high, low) >= radix.Base()
  {
  }

  lemma {:induction false} DecimalInjective(a: nat, b: nat)
    requires Decimal(a) == Decimal(b)
    ensures a == b
  {
    DigitsDenote(a, Ten);
    DigitsDenote(b, Ten);
  }

  lemma {:induction false} UnsignedDecimal(n: nat, bound: nat)
    requires n < bound
    ensures Unsigned(Decimal(n), Ten, bound) == Some(n)
  {
    DigitsDenote(n, Ten);
    assert Printable(Decimal(n)[0], Ten);
    hide Number, Digits;
  }

  /** Leading zeros and a plus sign do not matter to what is parsed. */
  lemma {:induction false} ZerosIgnored(s: string, radix: Radix, bound: nat)
    requires s != "" && s[0] != '+'
    ensures Unsigned("0" + s, radix, bound) == Unsigned(s, radix, bound)
    ensures Unsigned("+" + s, radix, bound) == Unsigned(s, radix, bound)
  {
    ZeroNumber(s, radix);
    assert ("+" + s)[1..] == s;
  }

  lemma {:induction false} ZeroNumber(s: string, radix: Radix)
    ensures Number("0" + s, radix) == Number(s, radix)
  {
    var t := "0" + s;
    if s == "" {
      assert t[..0] == "";
    } else {
      var last := |s| - 1;
      ZeroNumber(s[..last], radix);
      assert t[..|t| - 1] == "0" + s[..last];
    }
  }

  // ----- which digit is which

  const SYMBOLS := "0123456789ABCDEF"

  function Powers(base: nat, i: nat): (power: nat)
    requires base > 0
    ensures power > 0
  {
    if i == 0 then 1 else base * Powers(base, i - 1)
  }

  /** The `i`th digit from the end stands for multiples of the base to the `i`. */
  lemma {:induction false} DigitAt(n: nat, radix: Radix, i: nat)
    requires i < |Digits(n, radix)|
    ensures var base := if radix.Ten? then 10 else 16;
            Digits(n, radix)[|Digits(n, radix)| - 1 - i] == SYMBOLS[n / Powers(base, i) % base]
    decreases i
  {
    var base: nat := if radix.Ten? then 10 else 16;
    var before := if n < radix.Base() then "" else Digits(radix.High(n), radix);
    if i == 0 {
      assert n / 1 == n;
    } else {
      DigitAt(radix.High(n), radix, i - 1);
      DividedTwice(n, base, Powers(base, i - 1));
      assert radix.High(n) == n / base;
    }
  }
}

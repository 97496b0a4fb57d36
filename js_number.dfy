/** JavaScript's parseFloat and parseInt (radix left undefined), on exact
    decimal values instead of IEEE doubles. */
module JsNumber {
  import opened JsString
  import opened Arithmetic

  datatype Option<T> = None | Some(value: T)

  /** The number mantissa * 10^exponent. */
  datatype Decimal = Decimal(mantissa: int, exponent: int)

  function Pow10(k: nat): (r: nat)
    ensures r >= 1
  {
    if k == 0 then 1 else 10 * Pow10(k - 1)
  }

  /** Two decimals denote the same number (JavaScript's === on numbers). */
  predicate SameValue(a: Decimal, b: Decimal) {
    if a.exponent <= b.exponent then a.mantissa == b.mantissa * Pow10(b.exponent - a.exponent)
    else a.mantissa * Pow10(a.exponent - b.exponent) == b.mantissa
  }

  /** The longest prefix of s made of digits of the given radix. */
  function LeadingDigits(s: string, radix: nat): (r: string)
    ensures |r| <= |s| && r == s[..|r|] && AllDigits(r, radix)
    ensures |r| == |s| || DigitValue(s[|r|]) >= radix
  {
    if s != [] && DigitValue(s[0]) < radix then
      var r := [s[0]] + LeadingDigits(s[1..], radix);
      assert r[1..] == LeadingDigits(s[1..], radix);
      r
    else
      []
  }

  /** A string of digits followed by a non-digit is its own longest digit prefix. */
  lemma {:induction false} LeadingDigitsOf(ds: string, rest: string, radix: nat)
    requires AllDigits(ds, radix)
    requires rest == [] || DigitValue(rest[0]) >= radix
    ensures LeadingDigits(ds + rest, radix) == ds
  {
    if ds == [] {
      assert ds + rest == rest;
    } else {
      assert (ds + rest)[1..] == ds[1..] + rest;
      LeadingDigitsOf(ds[1..], rest, radix);
    }
  }

  /** s without a leading '+' or '-'. */
  function DropSign(s: string): string {
    if s != [] && (s[0] == '+' || s[0] == '-') then s[1..] else s
  }

  function Signed(negative: bool, magnitude: nat): int {
    if negative then -(magnitude as int) else magnitude
  }

  predicate StartsWithMinus(s: string) {
    s != [] && s[0] == '-'
  }

  /** The value of an exponent part "e" or "E", an optional sign and at least one
      digit at the start of s; 0 when s does not start with one. */
  function ExponentPart(s: string): int {
    if s != [] && (s[0] == 'e' || s[0] == 'E') then
      var digits := LeadingDigits(DropSign(s[1..]), 10);
      Signed(StartsWithMinus(s[1..]), ValueIn(digits, 10))
    else
      0
  }

  /** parseFloat(s): leading white space is skipped and the longest prefix that
      reads as a signed decimal literal (integer digits, an optional fraction
      and an optional exponent) is its value; None stands for NaN, returned
      when that prefix holds no digit. */
  function ParseFloat(s: string): Option<Decimal> {
    SignedFloat(TrimStart(s))
  }

  /** The decimal literal at the start of t, after an optional sign. */
  function SignedFloat(t: string): Option<Decimal> {
    match UnsignedFloat(DropSign(t))
    case None => None
    case Some(d) =>
      Some(if StartsWithMinus(t) then Decimal(-d.mantissa, d.exponent) else d)
  }

  /** The unsigned decimal literal at the start of u. */
  function UnsignedFloat(u: string): Option<Decimal> {
    var whole := LeadingDigits(u, 10);
    var rest := u[|whole|..];
    if rest != [] && rest[0] == '.' then
      var fraction := LeadingDigits(rest[1..], 10);
      FloatValue(whole, fraction, rest[1 + |fraction|..])
    else
      FloatValue(whole, [], rest)
  }

  /** The literal with integer digits whole, fraction digits fraction and the
      text after them rest; NaN when it holds no digit. */
  function FloatValue(whole: string, fraction: string, rest: string): Option<Decimal> {
    if |whole| + |fraction| == 0 then None
    else Some(Decimal(ValueIn(whole + fraction, 10), ExponentPart(rest) - |fraction|))
  }

  /** parseInt(s) with no radix: leading white space and one sign are skipped,
      a "0x" or "0X" prefix selects base 16, and the longest run of digits of
      the base is the value; None stands for NaN, returned when there is none. */
  function ParseInt(s: string): Option<int> {
    var t := TrimStart(s);
    match UnsignedInt(DropSign(t))
    case None => None
    case Some(n) => Some(Signed(StartsWithMinus(t), n))
  }

  /** The digits at the start of u, in base 16 after "0x" or "0X", else in base 10. */
  function UnsignedInt(u: string): Option<nat> {
    var hex := |u| >= 2 && u[0] == '0' && (u[1] == 'x' || u[1] == 'X');
    var radix := if hex then 16 else 10;
    var digits := LeadingDigits(if hex then u[2..] else u, radix);
    if digits == [] then None else Some(ValueIn(digits, radix))
  }

  /** A text the user can type for a decimal: the integer itself when the
      exponent is 0, otherwise mantissa "e" exponent. */
  function NumberText(d: Decimal): string {
    if d.exponent == 0 then DecimalString(d.mantissa)
    else DecimalString(d.mantissa) + "e" + DecimalString(d.exponent)
  }

  /** The magnitude of an integer. */
  function Abs(n: int): nat {
    if n < 0 then -n else n
  }

  /** DecimalString(n) followed by any text splits into the sign and the digits of |n|. */
  lemma DecimalStringParts(n: int, rest: string)
    ensures TrimStart(DecimalString(n) + rest) == DecimalString(n) + rest
    ensures StartsWithMinus(DecimalString(n) + rest) <==> n < 0
    ensures DropSign(DecimalString(n) + rest) == ToRadix(Abs(n), 10) + rest
  {
    var ds := ToRadix(Abs(n), 10);
    var s := DecimalString(n) + rest;
    assert '0' <= ds[0] <= '9';
    if n < 0 {
      assert s == "-" + (ds + rest);
      assert s[1..] == ds + rest;
    } else {
      assert s == ds + rest;
      assert s[0] == ds[0];
    }
    TrimStartOfUnspaced(s);
  }

  /** An unsigned run of digits followed by text that neither continues it nor
      starts a fraction reads as its value, with the exponent part of that text. */
  lemma UnsignedFloatOfDigits(ds: string, rest: string)
    requires ds != [] && AllDigits(ds, 10)
    requires rest == [] || (DigitValue(rest[0]) >= 10 && rest[0] != '.')
    ensures UnsignedFloat(ds + rest) == Some(Decimal(ValueIn(ds, 10), ExponentPart(rest)))
  {
    LeadingDigitsOf(ds, rest, 10);
    assert (ds + rest)[|ds|..] == rest;
    assert ds + [] == ds;
  }

  /** The exponent part of "e" followed by the decimal text of e is e. */
  lemma ExponentPartOf(e: int)
    ensures ExponentPart("e" + DecimalString(e)) == e
  {
    var s := "e" + DecimalString(e);
    assert s[1..] == DecimalString(e) + [];
    DecimalStringParts(e, []);
    LeadingDigitsOf(ToRadix(Abs(e), 10), [], 10);
  }

  /** parseFloat reads the decimal text of an integer m, followed by text that
      neither continues its digits nor starts a fraction, as m times ten to
      the exponent part of that text (0 when there is none). */
  lemma ParseFloatDecimalString(m: int, rest: string)
    requires rest == [] || (DigitValue(rest[0]) >= 10 && rest[0] != '.')
    ensures ParseFloat(DecimalString(m) + rest) == Some(Decimal(m, ExponentPart(rest)))
  {
    var s := DecimalString(m) + rest;
    DecimalStringParts(m, rest);
    UnsignedFloatOfDigits(ToRadix(Abs(m), 10), rest);
    assert UnsignedFloat(DropSign(s)) == Some(Decimal(Abs(m), ExponentPart(rest)));
  }

  /** parseFloat reads the toFixed(2) text of h hundredths back as exactly
      h hundredths. */
  lemma ParseFloatFixedHundredths(h: nat)
    ensures ParseFloat(FixedHundredths(h)) == Some(Decimal(h, -2))
  {
    var a := h / 100;
    var f := [DigitChar(h / 10 % 10), DigitChar(h % 10)];
    var rest := "." + f;
    assert FixedHundredths(h) == DecimalString(a) + rest;
    DecimalStringParts(a, rest);
    var w := ToRadix(a, 10);
    UnsignedFloatWithFraction(w, f);
    HundredthsDigits(h);
  }

  /** Digits, a point and more digits read as one decimal with as many
      fraction digits. */
  lemma UnsignedFloatWithFraction(w: string, f: string)
    requires w != [] && AllDigits(w, 10) && AllDigits(f, 10)
    ensures UnsignedFloat(w + ("." + f)) == Some(Decimal(ValueIn(w + f, 10), -|f|))
  {
    var rest := "." + f;
    LeadingDigitsOf(w, rest, 10);
    assert (w + rest)[|w|..] == rest;
    assert rest[1..] == f + [];
    LeadingDigitsOf(f, [], 10);
    assert rest[1 + |f|..] == [];
  }

  /** The value of two decimal digits after a digit string. */
  lemma HundredthsDigits(h: nat)
    ensures ValueIn(ToRadix(h / 100, 10) + [DigitChar(h / 10 % 10), DigitChar(h % 10)], 10) == h
  {
    var a, b, c := h / 100, h / 10 % 10, h % 10;
    HundredthsSplit(h);
    var w := ToRadix(a, 10);
    var x, y := DigitChar(b), DigitChar(c);
    assert w + [x, y] == (w + [x]) + [y];
    SnocDigit(w, x, 10);
    SnocDigit(w + [x], y, 10);
    var v := ValueIn(w + [x], 10);
    assert v == a * 10 + b;
    assert v * 10 + c == h;
  }

  /** h is its hundreds, tens and units. */
  lemma HundredthsSplit(h: nat)
    ensures (h / 100 * 10 + h / 10 % 10) * 10 + h % 10 == h
  {
    DivMod(h, 10);
    DivMod(h / 10, 10);
    DivUnique(h, 100, (h / 10) / 10, 10 * (h / 10 % 10) + h % 10);
  }

  /** parseFloat reads back every NumberText. */
  lemma ParseFloatNumberText(d: Decimal)
    ensures ParseFloat(NumberText(d)) == Some(d)
  {
    if d.exponent == 0 {
      assert NumberText(d) == DecimalString(d.mantissa) + [];
      ParseFloatDecimalString(d.mantissa, []);
    } else {
      var rest := "e" + DecimalString(d.exponent);
      assert NumberText(d) == DecimalString(d.mantissa) + rest;
      assert DigitValue(rest[0]) == 14;
      ParseFloatDecimalString(d.mantissa, rest);
      ExponentPartOf(d.exponent);
    }
  }

  /** parseInt reads back the decimal text of n, and stops at any text that
      does not continue its digits (a decimal point among them). */
  lemma ParseIntDecimalString(n: int, rest: string)
    requires rest == [] || (DigitValue(rest[0]) >= 10 && rest[0] != 'x' && rest[0] != 'X')
    ensures ParseInt(DecimalString(n) + rest) == Some(n)
  {
    DecimalStringParts(n, rest);
    var ds := ToRadix(Abs(n), 10);
    ToRadixNoLeadingZero(Abs(n), 10);
    UnsignedIntOfDigits(ds, rest);
    assert UnsignedInt(DropSign(TrimStart(DecimalString(n) + rest))) == Some(Abs(n));
  }

  /** A run of decimal digits without a leading zero, followed by text that
      neither continues it nor makes a hex prefix, reads as its value. */
  lemma UnsignedIntOfDigits(ds: string, rest: string)
    requires ds != [] && AllDigits(ds, 10) && (|ds| == 1 || DigitValue(ds[0]) != 0)
    requires rest == [] || (DigitValue(rest[0]) >= 10 && rest[0] != 'x' && rest[0] != 'X')
    ensures UnsignedInt(ds + rest) == Some(ValueIn(ds, 10))
  {
    var u := ds + rest;
    assert u[0] == ds[0];
    assert |ds| == 1 && |u| >= 2 ==> u[1] == rest[0];
    assert !(|u| >= 2 && u[0] == '0' && (u[1] == 'x' || u[1] == 'X'));
    LeadingDigitsOf(ds, rest, 10);
  }

  /** Leading white space never changes what parseFloat reads. */
  lemma ParseFloatSkipsSpaces(w: string, s: string)
    requires AllSpaces(w)
    ensures ParseFloat(w + s) == ParseFloat(s)
  {
    TrimStartSkipsSpaces(w, s);
  }

  /** A text that does not start with a digit has no leading digits. */
  lemma NoLeadingDigits(s: string, radix: nat)
    requires s == [] || DigitValue(s[0]) >= radix
    ensures LeadingDigits(s, radix) == []
  {
  }

  /** s holds no decimal digit. */
  predicate NoDigits(s: string) {
    forall i :: 0 <= i < |s| ==> DigitValue(s[i]) >= 10
  }

  /** A suffix of digit-free text is digit-free. */
  lemma NoDigitsSuffix(s: string, k: nat)
    requires NoDigits(s) && k <= |s|
    ensures NoDigits(s[k..])
  {
    forall i | 0 <= i < |s| - k ensures DigitValue(s[k..][i]) >= 10 {
      assert s[k..][i] == s[k + i];
    }
  }

  /** What parseFloat and parseInt look at after white space and a sign is a
      suffix of s, so it holds no digit when s holds none. */
  lemma NoDigitsAfterSign(s: string)
    requires NoDigits(s)
    ensures NoDigits(DropSign(TrimStart(s)))
  {
    var t := TrimStart(s);
    NoDigitsSuffix(s, |s| - |t|);
    if t != [] && (t[0] == '+' || t[0] == '-') {
      NoDigitsSuffix(t, 1);
    }
  }

  /** Text without a single digit is NaN to parseFloat. */
  lemma ParseFloatNeedsDigit(s: string)
    requires NoDigits(s)
    ensures ParseFloat(s) == None
  {
    var u := DropSign(TrimStart(s));
    NoDigitsAfterSign(s);
    NoLeadingDigits(u, 10);
    assert u[0..] == u;
    if u != [] && u[0] == '.' {
      NoLeadingDigits(u[1..], 10);
    }
  }

  /** Text without a single digit is NaN to parseInt. */
  lemma ParseIntNeedsDigit(s: string)
    requires NoDigits(s)
    ensures ParseInt(s) == None
  {
    var u := DropSign(TrimStart(s));
    NoDigitsAfterSign(s);
    assert !(|u| >= 2 && u[0] == '0');
    NoLeadingDigits(u, 10);
  }
}

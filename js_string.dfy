/** The parts of JavaScript's String and Number built-ins that the puzzle
    components rely on: String.prototype.trim, toLowerCase, Array.prototype.join,
    Number.prototype.toString(radix) on integers, Number.prototype.toFixed(2)
    and the decimal text a template literal gives an integer. */
module JsString {
  import opened Arithmetic

  /** WhiteSpace and LineTerminator code points of ECMAScript: the characters
      that trim() removes and that parseInt/parseFloat skip. */
  predicate IsSpace(c: char) {
    || c == '\t' || c == '\n' || c == '\U{B}' || c == '\U{C}' || c == '\r' || c == ' '
    || c == '\U{A0}' || c == '\U{1680}' || ('\U{2000}' <= c <= '\U{200A}')
    || c == '\U{2028}' || c == '\U{2029}' || c == '\U{202F}' || c == '\U{205F}'
    || c == '\U{3000}' || c == '\U{FEFF}'
  }

  predicate AllSpaces(s: string) {
    forall i :: 0 <= i < |s| ==> IsSpace(s[i])
  }

  /** s without its leading white space. */
  function TrimStart(s: string): (r: string)
    ensures |r| <= |s| && r == s[|s| - |r|..]
    ensures r == [] || !IsSpace(r[0])
  {
    if s != [] && IsSpace(s[0]) then TrimStart(s[1..]) else s
  }

  /** What TrimStart drops is white space. */
  lemma {:induction false} TrimStartDropsSpaces(s: string)
    ensures AllSpaces(s[..|s| - |TrimStart(s)|])
  {
    if s != [] && IsSpace(s[0]) {
      var r := TrimStart(s[1..]);
      TrimStartDropsSpaces(s[1..]);
      assert s[..|s| - |r|] == [s[0]] + s[1..][..|s| - 1 - |r|];
    }
  }

  /** s without its trailing white space. */
  function TrimEnd(s: string): (r: string)
    ensures |r| <= |s| && r == s[..|r|]
    ensures r == [] || !IsSpace(r[|r| - 1])
  {
    if s != [] && IsSpace(s[|s| - 1]) then TrimEnd(s[..|s| - 1]) else s
  }

  /** What TrimEnd drops is white space. */
  lemma {:induction false} TrimEndDropsSpaces(s: string)
    ensures AllSpaces(s[|TrimEnd(s)|..])
  {
    if s != [] && IsSpace(s[|s| - 1]) {
      var r := TrimEnd(s[..|s| - 1]);
      TrimEndDropsSpaces(s[..|s| - 1]);
      assert s[|r|..] == s[..|s| - 1][|r|..] + [s[|s| - 1]];
    }
  }

  /** String.prototype.trim: both ends stripped of white space. */
  function Trim(s: string): (r: string)
    ensures r == [] || (!IsSpace(r[0]) && !IsSpace(r[|r| - 1]))
  {
    TrimEnd(TrimStart(s))
  }

  /** A string that neither starts nor ends with white space is its own trim. */
  lemma TrimOfTrimmed(s: string)
    requires s == [] || (!IsSpace(s[0]) && !IsSpace(s[|s| - 1]))
    ensures Trim(s) == s
  {
    TrimStartOfUnspaced(s);
    TrimEndOfUnspaced(s);
  }

  /** Leading white space never changes what TrimStart leaves. */
  lemma {:induction false} TrimStartSkipsSpaces(w: string, s: string)
    requires AllSpaces(w)
    ensures TrimStart(w + s) == TrimStart(s)
  {
    if w != [] {
      assert (w + s)[1..] == w[1..] + s;
      TrimStartSkipsSpaces(w[1..], s);
    } else {
      assert w + s == s;
    }
  }

  /** Trailing white space never changes what TrimEnd leaves. */
  lemma {:induction false} TrimEndSkipsSpaces(s: string, w: string)
    requires AllSpaces(w)
    ensures TrimEnd(s + w) == TrimEnd(s)
  {
    if w != [] {
      assert (s + w)[..|s + w| - 1] == s + w[..|w| - 1];
      TrimEndSkipsSpaces(s, w[..|w| - 1]);
    } else {
      assert s + w == s;
    }
  }

  /** Nothing is left of white space. */
  lemma {:induction false} TrimStartOfSpaces(w: string)
    requires AllSpaces(w)
    ensures TrimStart(w) == []
  {
    if w != [] {
      TrimStartOfSpaces(w[1..]);
    }
  }

  /** Trim removes exactly the white space around a string that neither
      starts nor ends with white space. */
  lemma TrimAround(w1: string, t: string, w2: string)
    requires AllSpaces(w1) && AllSpaces(w2)
    requires t == [] || (!IsSpace(t[0]) && !IsSpace(t[|t| - 1]))
    ensures Trim(w1 + t + w2) == t
  {
    assert w1 + t + w2 == w1 + (t + w2);
    TrimStartSkipsSpaces(w1, t + w2);
    if t == [] {
      assert t + w2 == w2;
      TrimStartOfSpaces(w2);
    } else {
      assert (t + w2)[0] == t[0];
      TrimStartOfUnspaced(t + w2);
      TrimEndSkipsSpaces(t, w2);
      TrimEndOfUnspaced(t);
    }
  }

  /** A string that does not start with white space is left as it is by TrimStart. */
  lemma TrimStartOfUnspaced(s: string)
    requires s == [] || !IsSpace(s[0])
    ensures TrimStart(s) == s
  {
  }

  /** A string that does not end with white space is left as it is by TrimEnd. */
  lemma TrimEndOfUnspaced(s: string)
    requires s == [] || !IsSpace(s[|s| - 1])
    ensures TrimEnd(s) == s
  {
  }

  function LowerChar(c: char): char {
    if 'A' <= c <= 'Z' then (c as int + 32) as char else c
  }

  /** toLowerCase, restricted to the ASCII letters. */
  function Lower(s: string): (r: string)
    ensures |r| == |s|
  {
    seq(|s|, i requires 0 <= i < |s| => LowerChar(s[i]))
  }

  /** Array.prototype.join with separator sep. */
  function Join(parts: seq<string>, sep: string): string {
    if |parts| == 0 then ""
    else if |parts| == 1 then parts[0]
    else parts[0] + sep + Join(parts[1..], sep)
  }

  /** The value of c as a digit of a base up to 36 (0-9, then a-z or A-Z);
      36 for every other character. */
  function DigitValue(c: char): (v: nat)
    ensures v <= 36
  {
    if '0' <= c <= '9' then c as int - '0' as int
    else if 'a' <= c <= 'z' then c as int - 'a' as int + 10
    else if 'A' <= c <= 'Z' then c as int - 'A' as int + 10
    else 36
  }

  /** The lower-case digit Number.prototype.toString writes for v. */
  function DigitChar(v: nat): (c: char)
    requires v < 36
    ensures DigitValue(c) == v
    ensures !IsSpace(c) && LowerChar(c) == c
    ensures v < 10 ==> '0' <= c <= '9'
  {
    if v < 10 then ('0' as int + v) as char else ('a' as int + v - 10) as char
  }

  predicate AllDigits(s: string, radix: nat) {
    forall i :: 0 <= i < |s| ==> DigitValue(s[i]) < radix
  }

  /** The value of a string of digits in base radix, most significant first. */
  function ValueIn(s: string, radix: nat): nat {
    if s == [] then 0 else ValueIn(s[..|s| - 1], radix) * radix + DigitValue(s[|s| - 1])
  }

  /** Number.prototype.toString(radix) of a non-negative integer: the digits
      of n, without a leading zero, that read back as n. */
  function ToRadix(n: nat, radix: nat): (r: string)
    requires 2 <= radix <= 36
    ensures |r| >= 1 && AllDigits(r, radix)
    ensures n > 0 ==> DigitValue(r[0]) != 0
    ensures ValueIn(r, radix) == n
    ensures radix <= 10 ==> forall i :: 0 <= i < |r| ==> '0' <= r[i] <= '9'
    decreases n
  {
    if n < radix then
      [DigitChar(n)]
    else
      DivMod(n, radix);
      var prefix, last := ToRadix(n / radix, radix), DigitChar(n % radix);
      SnocDigit(prefix, last, radix);
      prefix + [last]
  }

  /** Only the text of zero starts with a zero digit. */
  lemma ToRadixNoLeadingZero(n: nat, radix: nat)
    requires 2 <= radix <= 36
    ensures |ToRadix(n, radix)| == 1 || DigitValue(ToRadix(n, radix)[0]) != 0
  {
  }

  /** Appending a digit keeps a string of digits and scales its value. */
  lemma SnocDigit(s: string, c: char, radix: nat)
    ensures ValueIn(s + [c], radix) == ValueIn(s, radix) * radix + DigitValue(c)
    ensures AllDigits(s, radix) && DigitValue(c) < radix ==> AllDigits(s + [c], radix)
    ensures (forall i :: 0 <= i < |s| ==> '0' <= s[i] <= '9') && '0' <= c <= '9' ==>
              forall i :: 0 <= i < |s + [c]| ==> '0' <= (s + [c])[i] <= '9'
    ensures s != [] ==> (s + [c])[0] == s[0]
  {
    assert (s + [c])[..|s|] == s;
  }

  /** The decimal text of an integer, as template literals and join write it. */
  function DecimalString(n: int): (r: string)
    ensures |r| >= 1 && !IsSpace(r[0]) && !IsSpace(r[|r| - 1])
    ensures r[0] == '-' <==> n < 0
  {
    if n < 0 then "-" + ToRadix(-n, 10) else ToRadix(n, 10)
  }

  /** The decimal texts of a sequence of integers. */
  function DecimalStrings(xs: seq<int>): (r: seq<string>)
    ensures |r| == |xs|
    ensures forall i :: 0 <= i < |xs| ==> r[i] == DecimalString(xs[i])
  {
    seq(|xs|, i requires 0 <= i < |xs| => DecimalString(xs[i]))
  }

  /** Where the sign and the text after it sit in a + " sign " + b. */
  lemma SignBetween(a: string, sign: char, b: string)
    ensures var q := a + [' ', sign, ' '] + b;
            |q| == |a| + 3 + |b| && q[|a|..|a| + 3] == [' ', sign, ' '] && q[|a| + 3..] == b
  {
    var q := a + [' ', sign, ' '] + b;
    assert q[|a|..|a| + 3] == [' ', sign, ' '];
    assert q[|a| + 3..] == b;
  }

  /** Number.prototype.toFixed(2) of the non-negative number h / 100: the
      whole part in decimal, a point, and exactly two fraction digits. */
  function FixedHundredths(h: nat): string {
    DecimalString(h / 100) + "." + [DigitChar(h / 10 % 10), DigitChar(h % 10)]
  }

  /** A digit string of base radix <= 10 without a leading zero is exactly what
      ToRadix writes for its value. */
  lemma {:induction false} ToRadixOfValue(s: string, radix: nat)
    requires 2 <= radix <= 10 && s != [] && AllDigits(s, radix)
    requires |s| == 1 || DigitValue(s[0]) != 0
    ensures ToRadix(ValueIn(s, radix), radix) == s
  {
    var last := s[|s| - 1];
    assert '0' <= last <= '9';
    assert DigitChar(DigitValue(last)) == last;
    if |s| > 1 {
      var prefix := s[..|s| - 1];
      assert prefix[0] == s[0];
      var p := ValueIn(prefix, radix);
      var v := ValueIn(s, radix);
      assert v == p * radix + DigitValue(last);
      LeadingDigitValue(prefix, radix);
      MultipleBounds(p, radix);
      DivUnique(v, radix, p, DigitValue(last));
      assert ToRadix(v, radix) == ToRadix(p, radix) + [DigitChar(DigitValue(last))];
      ToRadixOfValue(prefix, radix);
      assert prefix + [last] == s;
    }
  }

  /** A digit string whose first digit is not zero has a positive value. */
  lemma {:induction false} LeadingDigitValue(s: string, radix: nat)
    requires 2 <= radix && s != [] && DigitValue(s[0]) != 0
    ensures ValueIn(s, radix) >= 1
  {
    if |s| > 1 {
      var prefix := s[..|s| - 1];
      assert prefix[0] == s[0];
      LeadingDigitValue(prefix, radix);
      MultipleBounds(ValueIn(prefix, radix), radix);
    }
  }
}

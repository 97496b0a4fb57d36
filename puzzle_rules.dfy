/** The puzzle kinds of src/components/puzzleClock.js and the rule that gives
    each one its question and its expected answer. Every Math.random draw of
    generatePuzzle is a field of Draws, bounded as the draw is. */
module PuzzleRules {
  import opened JsString
  import opened JsNumber
  import opened Arithmetic

  datatype PuzzleType =
    | Sequence | Arithmetic | Prime | Factor | Modulo | Sqrt | CubeRoot
    | Percentage | MissingNumber | DecimalToBinary

  /** The puzzleTypes array, in its order: the type draw indexes it. */
  const PuzzleTypes: seq<PuzzleType> :=
    [Sequence, Arithmetic, Prime, Factor, Modulo, Sqrt, CubeRoot, Percentage, MissingNumber, DecimalToBinary]

  datatype Operation = Plus | Minus | Times | Divide

  /** The operations array of the arithmetic puzzle. */
  const Operations: seq<Operation> := [Plus, Minus, Times, Divide]

  /** The draws of one generatePuzzle call, in the order it makes them:
      num1 and num2, the index of the puzzle type, then up to two draws that
      depend on the type (first, second). */
  datatype Draws = Draws(num1: int, num2: int, typeIndex: int, first: int, second: int)

  /** Each draw Math.floor(Math.random() * k) + c lies in c..c+k-1. */
  predicate ValidDraws(d: Draws) {
    && 1 <= d.num1 <= 20 && 1 <= d.num2 <= 20
    && 0 <= d.typeIndex < |PuzzleTypes|
    && match PuzzleTypes[d.typeIndex]
       case Sequence => 1 <= d.first <= 5
       case Arithmetic => 0 <= d.first < |Operations|
       case Prime => 1 <= d.first <= 50
       case Factor => 1 <= d.first <= 30
       case Modulo => 1 <= d.first <= 20 && 1 <= d.second <= 20
       case Sqrt => 1 <= d.first <= 10
       case CubeRoot => 1 <= d.first <= 10
       case Percentage => 1 <= d.first <= 100 && 1 <= d.second <= 100
       case MissingNumber => 0 <= d.first < 4
       case DecimalToBinary => 1 <= d.first <= 100
  }

  /** The expected answer: a JavaScript number (checked by value) or a string
      (checked as trimmed lower-case text). */
  datatype Answer = Number(value: Decimal) | Text(text: string)

  datatype Puzzle = Puzzle(question: string, answer: Answer)

  function Whole(n: int): Answer {
    Number(Decimal(n, 0))
  }

  // ---------------------------------------------------------------- sequence

  function Power2(i: nat): (r: nat)
    ensures r >= 1
  {
    if i == 0 then 1 else 2 * Power2(i - 1)
  }

  /** The five terms start * 2^i, i = 0..4, that the sequence puzzle shows. */
  function DoublingSequence(start: int): (terms: seq<int>)
    ensures |terms| == 5
  {
    seq(5, i requires 0 <= i < 5 => start * Power2(i))
  }

  /** sequence[sequence.length - 1] * 2. */
  function NextTerm(terms: seq<int>): int
    requires |terms| >= 1
  {
    terms[|terms| - 1] * 2
  }

  /** The sequence puzzle: the answer is twice the last term shown. */
  function SequencePuzzle(start: int): Puzzle {
    var terms := DoublingSequence(start);
    Puzzle("What is the next number in the series: " + Join(DecimalStrings(terms), ", ") + "?",
           Whole(NextTerm(terms)))
  }

  /** Each shown term doubles the one before it, and the answer is the sixth
      term of the same doubling sequence, 32 * start. */
  lemma SequenceAnswer(start: int)
    ensures forall i :: 1 <= i < 5 ==> DoublingSequence(start)[i] == 2 * DoublingSequence(start)[i - 1]
    ensures NextTerm(DoublingSequence(start)) == start * Power2(5) == 32 * start
  {
    var terms := DoublingSequence(start);
    forall i | 1 <= i < 5 ensures terms[i] == 2 * terms[i - 1] {
      assert Power2(i) == 2 * Power2(i - 1);
    }
    assert Power2(5) == 2 * Power2(4);
  }

  // -------------------------------------------------------------- arithmetic

  /** toFixed(2) of num1 / divisor for positive operands, in hundredths: the
      nearest number of hundredths, the larger one on a tie. */
  function RoundedHundredths(num1: nat, divisor: int): (r: int)
    requires divisor >= 1
    ensures -divisor <= 2 * (100 * num1 - r * divisor) < divisor
  {
    var q := (200 * num1 + divisor) / (2 * divisor);
    DivMod(200 * num1 + divisor, 2 * divisor);
    assert 2 * (100 * num1 - q * divisor) == (200 * num1 + divisor) % (2 * divisor) - divisor;
    q
  }

  /** The arithmetic puzzle for one operation; division guards against a zero
      divisor by using 1. */
  function ArithmeticPuzzle(op: Operation, num1: nat, num2: int): Puzzle
    requires num2 >= 1
  {
    match op
    case Plus => Puzzle(DecimalString(num1) + " + " + DecimalString(num2), Whole(num1 + num2))
    case Minus => Puzzle(DecimalString(num1) + " - " + DecimalString(num2), Whole(num1 - num2))
    case Times => Puzzle(DecimalString(num1) + " * " + DecimalString(num2), Whole(num1 * num2))
    case Divide =>
      var divisor := if num2 == 0 then 1 else num2;
      Puzzle(DecimalString(num1) + " / " + DecimalString(divisor),
             Number(Decimal(RoundedHundredths(num1, divisor), -2)))
  }

  /** Only one number of hundredths is nearest to num1 / divisor in the sense
      of RoundedHundredths, so its contract pins it down. */
  lemma RoundedHundredthsUnique(num1: nat, divisor: int, r: int)
    requires divisor >= 1
    requires -divisor <= 2 * (100 * num1 - r * divisor) < divisor
    ensures r == RoundedHundredths(num1, divisor)
  {
    var e := RoundedHundredths(num1, divisor) - r;
    assert e * divisor == RoundedHundredths(num1, divisor) * divisor - r * divisor;
    MultipleBounds(e, divisor);
  }

  /** A division that comes out even is answered with its exact quotient. */
  lemma DivisionExactWhenDivisible(num1: nat, divisor: int)
    requires divisor >= 1 && num1 % divisor == 0
    ensures SameValue(Decimal(RoundedHundredths(num1, divisor), -2), Decimal(num1 / divisor, 0))
  {
    var q := num1 / divisor;
    DivMod(num1, divisor);
    assert (100 * q) * divisor == 100 * (q * divisor) == 100 * num1;
    RoundedHundredthsUnique(num1, divisor, 100 * q);
    assert Pow10(2) == 100;
  }

  /** The arithmetic question reads as its first operand. */
  lemma QuestionReadsFirstOperand(op: Operation, num1: nat, num2: int)
    requires num2 >= 1
    ensures ParseFloat(ArithmeticPuzzle(op, num1, num2).question) == Some(Decimal(num1, 0))
  {
    var sign := match op case Plus => '+' case Minus => '-' case Times => '*' case Divide => '/';
    assert ArithmeticPuzzle(op, num1, num2).question == DecimalString(num1) + [' ', sign, ' '] + DecimalString(num2);
    ReadsBeforeSign(num1, sign, DecimalString(num2));
  }

  /** The decimal text of a, then a sign between two spaces, reads as a. */
  lemma ReadsBeforeSign(a: int, sign: char, tail: string)
    ensures ParseFloat(DecimalString(a) + [' ', sign, ' '] + tail) == Some(Decimal(a, 0))
  {
    assert DecimalString(a) + [' ', sign, ' '] + tail == DecimalString(a) + ([' ', sign, ' '] + tail);
    ReadsBeforeSpace(a, [' ', sign, ' '] + tail);
  }

  /** After the first operand the arithmetic question shows the operator's
      sign between two spaces, then reads as the second operand. */
  lemma QuestionShowsOperatorAndSecondOperand(op: Operation, num1: nat, num2: int)
    requires num2 >= 1
    ensures var q, k := ArithmeticPuzzle(op, num1, num2).question, |DecimalString(num1)|;
            && |q| > k + 3
            && q[k..k + 3] == [' ', match op case Plus => '+' case Minus => '-' case Times => '*' case Divide => '/', ' ']
            && q[k + 3..] == DecimalString(num2)
            && ParseFloat(DecimalString(num2)) == Some(Decimal(num2, 0))
  {
    var sign := match op case Plus => '+' case Minus => '-' case Times => '*' case Divide => '/';
    assert ArithmeticPuzzle(op, num1, num2).question == DecimalString(num1) + [' ', sign, ' '] + DecimalString(num2);
    SignBetween(DecimalString(num1), sign, DecimalString(num2));
    ReadsWhole(num2);
  }

  /** The decimal text of a followed by a space reads as a. */
  lemma ReadsBeforeSpace(a: int, rest: string)
    requires rest != [] && rest[0] == ' '
    ensures ParseFloat(DecimalString(a) + rest) == Some(Decimal(a, 0))
  {
    assert ExponentPart(rest) == 0;
    ParseFloatDecimalString(a, rest);
  }

  /** The decimal text of b reads as b. */
  lemma ReadsWhole(b: int)
    ensures ParseFloat(DecimalString(b)) == Some(Decimal(b, 0))
  {
    assert DecimalString(b) + [] == DecimalString(b);
    ParseFloatDecimalString(b, []);
  }

  /** The division answer is what parseFloat reads from the toFixed(2) text
      of the quotient. */
  lemma DivisionAnswerReadsFixedText(num1: nat, divisor: int)
    requires divisor >= 1
    ensures RoundedHundredths(num1, divisor) >= 0
    ensures ParseFloat(FixedHundredths(RoundedHundredths(num1, divisor))) == Some(ArithmeticPuzzle(Divide, num1, divisor).answer.value)
  {
    RoundedHundredthsNonNegative(num1, divisor);
    ParseFloatFixedHundredths(RoundedHundredths(num1, divisor));
  }

  /** The rounded quotient of non-negative numbers is non-negative. */
  lemma RoundedHundredthsNonNegative(num1: nat, divisor: int)
    requires divisor >= 1
    ensures RoundedHundredths(num1, divisor) >= 0
  {
    DivMod(200 * num1 + divisor, 2 * divisor);
  }

  // ------------------------------------------------------------------- prime

  /** n is prime: greater than 1 and divisible by no k with 2 <= k < n. */
  ghost predicate IsPrimeNumber(n: int) {
    n > 1 && forall k :: 2 <= k < n ==> n % k != 0
  }

  /** The isPrime helper: trial division by every i with i * i <= n (the
      integer form of i <= Math.sqrt(n)), then n > 1. */
  method IsPrime(n: int) returns (prime: bool)
    ensures prime <==> IsPrimeNumber(n)
  {
    var i := 2;
    while i * i <= n
      invariant 2 <= i
      invariant forall k :: 2 <= k < i ==> n % k != 0
      decreases n - i
    {
      if n % i == 0 {
        assert 2 <= i < n;
        return false;
      }
      i := i + 1;
    }
    TrialDivisionSuffices(n, i);
    prime := n > 1;
  }

  /** A divisor k of n at or above i, where n < i * i, has a co-divisor
      n / k below i that divides n too. */
  lemma SmallCoDivisor(n: int, k: int, i: int)
    requires 2 <= i <= k < n && n < i * i && n % k == 0
    ensures 2 <= n / k < i && n % (n / k) == 0
  {
    var q := n / k;
    DivMod(n, k);
    CoDivisorAtLeastTwo(n, k, q);
    CoDivisorBelow(n, k, q, i);
    DivUnique(n, q, k, 0);
  }

  lemma CoDivisorAtLeastTwo(n: int, k: int, q: int)
    requires 0 < k < n && n == q * k
    ensures q >= 2
  {
    assert (q - 1) * k == n - k;
    MultipleBounds(q - 1, k);
  }

  lemma CoDivisorBelow(n: int, k: int, q: int, i: int)
    requires 2 <= i <= k && n < i * i && n == q * k
    ensures q < i
  {
    assert (q - i + 1) * k == n - i * k + k;
    MultipleBounds(q - i + 1, k);
    assert (k - i + 1) * i == k * i - i * i + i;
    MultipleBounds(k - i + 1, i);
  }

  /** Trial division up to the square root suffices: with no divisor below i
      and n < i * i, n has no divisor in 2..n-1. */
  lemma TrialDivisionSuffices(n: int, i: int)
    requires 2 <= i && n < i * i
    requires forall k :: 2 <= k < i ==> n % k != 0
    ensures forall k :: 2 <= k < n ==> n % k != 0
  {
    forall k | 2 <= k < n ensures n % k != 0 {
      if k >= i && n % k == 0 {
        SmallCoDivisor(n, k, i);
        assert false;
      }
    }
  }

  /** The prime puzzle: "yes" exactly for a prime. */
  function PrimePuzzle(n: int, prime: bool): Puzzle {
    Puzzle("Is " + DecimalString(n) + " a prime number? (yes/no)", Text(if prime then "yes" else "no"))
  }

  // ------------------------------------------------------------------ factor

  /** The divisors of n among 1..k, in increasing order: the reference the
      getFactors loop is checked against. */
  function DivisorsUpTo(n: int, k: nat): seq<int> {
    if k == 0 then [] else DivisorsUpTo(n, k - 1) + (if n % k == 0 then [k] else [])
  }

  /** The getFactors helper: every i in 1..n that divides n, pushed in order. */
  method Factors(n: int) returns (factors: seq<int>)
    ensures factors == DivisorsUpTo(n, if n > 0 then n else 0)
  {
    factors := [];
    var i := 1;
    while i <= n
      invariant 1 <= i && (n > 0 ==> i <= n + 1) && (n <= 0 ==> i == 1)
      invariant factors == DivisorsUpTo(n, i - 1)
    {
      if n % i == 0 {
        factors := factors + [i];
      }
      i := i + 1;
    }
  }

  /** DivisorsUpTo(n, k) lists exactly the divisors of n in 1..k, strictly increasing. */
  lemma {:induction false} DivisorsUpToExact(n: int, k: nat)
    ensures forall j :: 0 <= j < |DivisorsUpTo(n, k)| ==> 1 <= DivisorsUpTo(n, k)[j] <= k
    ensures forall j, l :: 0 <= j < l < |DivisorsUpTo(n, k)| ==> DivisorsUpTo(n, k)[j] < DivisorsUpTo(n, k)[l]
    ensures forall d :: d in DivisorsUpTo(n, k) <==> 1 <= d <= k && n % d == 0
  {
    if k > 0 {
      DivisorsUpToExact(n, k - 1);
    }
  }

  /** The factor list of n >= 1 starts with 1 and ends with n. */
  lemma FactorsFirstAndLast(n: int)
    requires n >= 1
    ensures |DivisorsUpTo(n, n)| >= 1
    ensures DivisorsUpTo(n, n)[0] == 1 && DivisorsUpTo(n, n)[|DivisorsUpTo(n, n)| - 1] == n
  {
    var f := DivisorsUpTo(n, n);
    DivisorsUpToExact(n, n);
    assert n % n == 0 && n % 1 == 0;
    assert 1 in f && n in f;
    assert forall x :: 0 <= x < |f| ==> f[0] <= f[x] <= f[|f| - 1];
  }

  /** The factor puzzle: the factors joined by ", ". */
  function FactorPuzzle(n: int, factors: seq<int>): Puzzle {
    Puzzle("What are the factors of " + DecimalString(n) + "? (comma-separated)",
           Text(Join(DecimalStrings(factors), ", ")))
  }

  // ------------------------------------------------------------------ modulo

  /** num3 % num4 for a non-negative num3 and a positive num4 (where
      JavaScript's truncating % and Dafny's Euclidean % agree). */
  function Remainder(num3: nat, num4: int): (r: int)
    requires num4 >= 1
    ensures 0 <= r < num4 && num3 == (num3 / num4) * num4 + r
  {
    DivMod(num3, num4);
    num3 % num4
  }

  function ModuloPuzzle(num3: nat, num4: int): Puzzle
    requires num4 >= 1
  {
    Puzzle("What is the remainder when " + DecimalString(num3) + " is divided by " + DecimalString(num4) + "?",
           Whole(Remainder(num3, num4)))
  }

  /** The remainder is the only r in 0..num4-1 that leaves num3 - r a multiple
      of num4. */
  lemma RemainderUnique(num3: nat, num4: int, q: int, r: int)
    requires num4 >= 1 && 0 <= r < num4 && num3 == q * num4 + r
    ensures ModuloPuzzle(num3, num4).answer == Whole(r)
  {
    DivUnique(num3, num4, q, r);
  }

  // ------------------------------------------------------ square and cube root

  const SquareRootPrefix := "What is the square root of "
  const CubeRootPrefix := "What is the cube root of "

  /** The square-root puzzle shows root * root, a perfect square. */
  function SquareRootPuzzle(root: int): Puzzle {
    Puzzle(SquareRootPrefix + DecimalString(root * root) + "?", Whole(root))
  }

  /** The cube-root puzzle shows root * root * root, a perfect cube. */
  function CubeRootPuzzle(root: int): Puzzle {
    Puzzle(CubeRootPrefix + DecimalString(root * root * root) + "?", Whole(root))
  }

  /** The question text, after prefix, reads (with parseFloat) as shown. */
  lemma ShownAfter(prefix: string, shown: int)
    ensures ParseFloat((prefix + DecimalString(shown) + "?")[|prefix|..]) == Some(Decimal(shown, 0))
  {
    assert (prefix + DecimalString(shown) + "?")[|prefix|..] == DecimalString(shown) + "?";
    assert DigitValue('?') == 36;
    ParseFloatDecimalString(shown, "?");
  }

  /** The number the square-root puzzle shows is the square of its answer,
      and the number the cube-root puzzle shows is the cube of its answer. */
  lemma RootPuzzlesShowPowers(root: int)
    ensures var p := SquareRootPuzzle(root);
            && p.answer == Whole(root)
            && ParseFloat(p.question[|SquareRootPrefix|..]) == Some(Decimal(root * root, 0))
    ensures var p := CubeRootPuzzle(root);
            && p.answer == Whole(root)
            && ParseFloat(p.question[|CubeRootPrefix|..]) == Some(Decimal(root * root * root, 0))
  {
    ShownAfter(SquareRootPrefix, root * root);
    ShownAfter(CubeRootPrefix, root * root * root);
  }

  // -------------------------------------------------------------- percentage

  /** toFixed(2) of total * percentage / 100 is exact: total * percentage hundredths. */
  function PercentagePuzzle(total: int, percentage: int): Puzzle {
    Puzzle("What is " + DecimalString(percentage) + " percentage of " + DecimalString(total) + "?",
           Number(Decimal(total * percentage, -2)))
  }

  /** The percentage answer is what parseFloat reads from the toFixed(2) text
      of total * percentage / 100. */
  lemma PercentageAnswerReadsFixedText(total: nat, percentage: nat)
    ensures ParseFloat(FixedHundredths(total * percentage)) == Some(PercentagePuzzle(total, percentage).answer.value)
  {
    PercentageAnswerHundredths(total, percentage);
    ParseFloatFixedHundredths(total * percentage);
  }

  /** The percentage answer is a non-negative number of hundredths. */
  lemma PercentageAnswerHundredths(total: nat, percentage: nat)
    ensures total * percentage >= 0
    ensures PercentagePuzzle(total, percentage).answer == Number(Decimal(total * percentage, -2))
  {
    if total > 0 {
      MultipleBounds(percentage, total);
    }
  }

  /** A percentage that comes out whole is answered with that whole number. */
  lemma PercentageWhenWhole(total: int, percentage: int)
    requires total >= 0 && percentage >= 0 && (total * percentage) % 100 == 0
    ensures SameValue(PercentagePuzzle(total, percentage).answer.value, Decimal(total * percentage / 100, 0))
  {
    DivMod(total * percentage, 100);
    assert Pow10(2) == 100;
  }

  // ---------------------------------------------------------- missing number

  /** The series of the missing-number puzzle. */
  const Series: seq<int> := [2, 4, 8, 16]

  /** The series as shown, with "?" in place of the missing term. */
  function SeriesWithGap(missingIndex: int): (shown: seq<string>)
    requires 0 <= missingIndex < |Series|
    ensures |shown| == |Series| && shown[missingIndex] == "?"
    ensures forall i :: 0 <= i < |Series| && i != missingIndex ==> shown[i] == DecimalString(Series[i])
  {
    DecimalStrings(Series)[missingIndex := "?"]
  }

  function MissingNumberPuzzle(missingIndex: int): Puzzle
    requires 0 <= missingIndex < |Series|
  {
    Puzzle("Find the missing number in the series: " + Join(SeriesWithGap(missingIndex), ", "),
           Whole(Series[missingIndex]))
  }

  /** The series doubles from 2, so the missing term at index i is 2^(i+1),
      and every other term is shown. */
  lemma MissingNumberAnswer(missingIndex: int)
    requires 0 <= missingIndex < |Series|
    ensures forall i :: 0 <= i < |Series| ==> Series[i] == Power2(i + 1)
    ensures MissingNumberPuzzle(missingIndex).answer == Whole(Power2(missingIndex + 1))
  {
    assert Power2(1) == 2 && Power2(2) == 4 && Power2(3) == 8 && Power2(4) == 16;
  }

  /** Each term shown in the series reads back as 2^(i+1), and the gap reads
      as no number at all. */
  lemma SeriesReadsBack(missingIndex: int)
    requires 0 <= missingIndex < |Series|
    ensures ParseFloat(SeriesWithGap(missingIndex)[missingIndex]) == None
    ensures forall i :: 0 <= i < |Series| && i != missingIndex ==>
              ParseFloat(SeriesWithGap(missingIndex)[i]) == Some(Decimal(Power2(i + 1), 0))
  {
    var shown := SeriesWithGap(missingIndex);
    assert NoDigits(shown[missingIndex]);
    ParseFloatNeedsDigit(shown[missingIndex]);
    MissingNumberAnswer(missingIndex);
    forall i | 0 <= i < |Series| && i != missingIndex
      ensures ParseFloat(shown[i]) == Some(Decimal(Power2(i + 1), 0))
    {
      ShownTermReadsBack(missingIndex, i);
    }
  }

  /** A term shown away from the gap is the decimal text of the series term. */
  lemma ShownTermReadsBack(missingIndex: int, i: int)
    requires 0 <= missingIndex < |Series| && 0 <= i < |Series| && i != missingIndex
    ensures ParseFloat(SeriesWithGap(missingIndex)[i]) == Some(Decimal(Series[i], 0))
  {
    var n := Series[i];
    assert SeriesWithGap(missingIndex)[i] == DecimalString(n);
    ReadsWhole(n);
  }

  // ------------------------------------------------------- decimal to binary

  /** decimalNumber.toString(2). */
  function BinaryPuzzle(n: nat): Puzzle {
    Puzzle("What is the binary representation of " + DecimalString(n) + "?", Text(ToRadix(n, 2)))
  }

  /** A string of '0' and '1' that starts with '1'. */
  predicate IsBinaryNumeral(b: string) {
    b != [] && b[0] == '1' && forall i :: 0 <= i < |b| ==> b[i] == '0' || b[i] == '1'
  }

  /** The binary answer for n >= 1 is a binary numeral whose base-2 value is n. */
  lemma BinaryAnswerIsNumeral(n: nat)
    requires n >= 1
    ensures IsBinaryNumeral(BinaryPuzzle(n).answer.text)
    ensures ValueIn(BinaryPuzzle(n).answer.text, 2) == n
  {
    var r := ToRadix(n, 2);
    assert forall i :: 0 <= i < |r| ==> r[i] == '0' || r[i] == '1' by {
      forall i | 0 <= i < |r| ensures r[i] == '0' || r[i] == '1' {
        assert '0' <= r[i] <= '9' && DigitValue(r[i]) < 2;
      }
    }
    assert '0' <= r[0] <= '9' && DigitValue(r[0]) == 1;
  }

  /** Every binary numeral is the binary answer for its own value. */
  lemma BinaryNumeralIsAnswer(b: string)
    requires IsBinaryNumeral(b)
    ensures ValueIn(b, 2) >= 1 && BinaryPuzzle(ValueIn(b, 2)).answer.text == b
  {
    assert AllDigits(b, 2);
    assert DigitValue(b[0]) == 1;
    LeadingDigitValue(b, 2);
    ToRadixOfValue(b, 2);
  }

  // ---------------------------------------------------------------- generator

  /** The puzzle generatePuzzle builds from the draws d. */
  ghost function PuzzleFor(d: Draws): Puzzle
    requires ValidDraws(d)
  {
    match PuzzleTypes[d.typeIndex]
    case Sequence => SequencePuzzle(d.first)
    case Arithmetic => ArithmeticPuzzle(Operations[d.first], d.num1, d.num2)
    case Prime => PrimePuzzle(d.first, IsPrimeNumber(d.first))
    case Factor => FactorPuzzle(d.first, DivisorsUpTo(d.first, d.first))
    case Modulo => ModuloPuzzle(d.first, d.second)
    case Sqrt => SquareRootPuzzle(d.first)
    case CubeRoot => CubeRootPuzzle(d.first)
    case Percentage => PercentagePuzzle(d.first, d.second)
    case MissingNumber => MissingNumberPuzzle(d.first)
    case DecimalToBinary => BinaryPuzzle(d.first)
  }

  /** generatePuzzle's switch over the drawn puzzle type. */
  method BuildPuzzle(d: Draws) returns (p: Puzzle)
    requires ValidDraws(d)
    ensures p == PuzzleFor(d)
  {
    match PuzzleTypes[d.typeIndex]
    case Sequence => p := SequencePuzzle(d.first);
    case Arithmetic => p := ArithmeticPuzzle(Operations[d.first], d.num1, d.num2);
    case Prime =>
      var prime := IsPrime(d.first);
      p := PrimePuzzle(d.first, prime);
    case Factor =>
      var factors := Factors(d.first);
      p := FactorPuzzle(d.first, factors);
    case Modulo => p := ModuloPuzzle(d.first, d.second);
    case Sqrt => p := SquareRootPuzzle(d.first);
    case CubeRoot => p := CubeRootPuzzle(d.first);
    case Percentage => p := PercentagePuzzle(d.first, d.second);
    case MissingNumber => p := MissingNumberPuzzle(d.first);
    case DecimalToBinary => p := BinaryPuzzle(d.first);
  }

  /** A text a user can type to give the answer a. */
  function AnswerText(a: Answer): string {
    match a
    case Number(v) => NumberText(v)
    case Text(t) => t
  }

  /** The first character of a join is that of its first part, the last that
      of its last part. */
  lemma {:induction false} JoinEnds(parts: seq<string>, sep: string)
    requires |parts| >= 1 && forall i :: 0 <= i < |parts| ==> |parts[i]| >= 1
    ensures |Join(parts, sep)| >= 1
    ensures Join(parts, sep)[0] == parts[0][0]
    ensures Join(parts, sep)[|Join(parts, sep)| - 1] == parts[|parts| - 1][|parts[|parts| - 1]| - 1]
  {
    if |parts| > 1 {
      JoinEnds(parts[1..], sep);
    }
  }

  /** The text answer of a prime puzzle is its own trim. */
  lemma PrimeAnswerTrimmed(n: int, prime: bool)
    ensures Trim(PrimePuzzle(n, prime).answer.text) == PrimePuzzle(n, prime).answer.text
  {
    TrimOfTrimmed(PrimePuzzle(n, prime).answer.text);
  }

  /** The text answer of a factor puzzle is its own trim. */
  lemma FactorAnswerTrimmed(n: int)
    requires n >= 1
    ensures var t := FactorPuzzle(n, DivisorsUpTo(n, n)).answer.text; Trim(t) == t
  {
    FactorsFirstAndLast(n);
    JoinEnds(DecimalStrings(DivisorsUpTo(n, n)), ", ");
    TrimOfTrimmed(FactorPuzzle(n, DivisorsUpTo(n, n)).answer.text);
  }

  /** The text answer of a binary puzzle is its own trim. */
  lemma BinaryAnswerTrimmed(n: nat)
    ensures Trim(BinaryPuzzle(n).answer.text) == BinaryPuzzle(n).answer.text
  {
    var r := ToRadix(n, 2);
    assert '0' <= r[0] <= '9' && '0' <= r[|r| - 1] <= '9';
    TrimOfTrimmed(r);
  }

  /** Every text answer the generator builds is its own trim, so typing it
      back is read as that very answer. */
  lemma TextAnswersAreTrimmed(d: Draws)
    requires ValidDraws(d)
    ensures PuzzleFor(d).answer.Text? ==> Trim(PuzzleFor(d).answer.text) == PuzzleFor(d).answer.text
  {
    match PuzzleTypes[d.typeIndex]
    case Prime => PrimeAnswerTrimmed(d.first, IsPrimeNumber(d.first));
    case Factor => FactorAnswerTrimmed(d.first);
    case DecimalToBinary => BinaryAnswerTrimmed(d.first);
    case _ =>
  }
}

# puzzleclock in Dafny

A model of the puzzle-locked clock of the puzzleclock React application, with
proofs about it. Three components are modelled.

- **PuzzleClock** (`src/components/puzzleClock.js`). It shows an analog or a
  digital clock. The button that switches between the two stays disabled
  until the user solves the current puzzle. A puzzle is drawn from ten kinds:
  - doubling sequence
  - arithmetic
  - primality
  - factor list
  - modulo
  - square root
  - cube root
  - percentage
  - missing number in a series
  - decimal to binary

  `checkPuzzle` compares the user's input with the expected answer:
  - A number answer is compared with `parseFloat` of the input.
  - A text answer is compared with the input trimmed and lower-cased.

  Toggling flips the clock type and generates a new puzzle. That locks the
  button again.
- **ToggleableClock** (`src/components/ToggleableClock.js`). It has the same
  lock, with addition puzzles only, checked with `parseInt`.
- **AnalogClock** (`src/components/analogClock.js`). It turns the time into
  rotations of the hour, minute and second hands.

The Dafny modules are:

- `Arithmetic` (`arithmetic.dfy`): small facts about `/` and `%` used by the
  other modules.
- `JsString` (`js_string.dfy`): the JavaScript built-ins the components use.
  These are white space, `trim`, `toLowerCase`, `Array.prototype.join`,
  `Number.prototype.toString(radix)`, `Number.prototype.toFixed(2)` and the
  decimal text of template literals.
- `JsNumber` (`js_number.dfy`): `parseFloat` and `parseInt`. Numbers are
  exact decimals `Decimal(mantissa, exponent)`. `SameValue` is `===` on them,
  and `None` stands for `NaN`.
- `PuzzleRules` (`puzzle_rules.dfy`): `generatePuzzle`'s ten rules.
  - Each `Math.random` draw is a field of `Draws`, bounded by `ValidDraws`
    as the draw is.
  - `isPrime` and `getFactors` are methods with loops, proved against
    `IsPrimeNumber` and `DivisorsUpTo`.
  - `BuildPuzzle` is the switch over the drawn kind, proved equal to the
    specification `PuzzleFor`.
- `PuzzleClock` (`puzzle_clock.dfy`): the PuzzleClock component.
  - The `Session` class has the component's state variables as fields and
    its handlers as methods.
  - Each method is tied to a step function on `ClockState`.
  - `Step` and `Run` replay user events as the rendered page lets them happen:
    - The input field and the Submit and Change Puzzle buttons are shown
      only while the puzzle is unsolved.
    - The toggle button is disabled until the puzzle is solved.
- `ToggleableClock` (`toggleable_clock.dfy`): the same for the addition-only
  component, with the class `AdditionSession`.
- `AnalogClock` (`analog_clock.dfy`): the hand rotations in tenths of a
  degree, so that the 0.1° and 0.5° steps are integers.

Two behaviours of the components are worth knowing:

- **Off-by-delta answers can be accepted.** An answer that differs from the
  expected one is not always rejected:
  - `parseInt` stops at a decimal point. So ToggleableClock accepts `"11.5"`
    for the sum 11 (`ToggleableClock.FractionAccepted`).
  - `parseFloat` ignores trailing text. So PuzzleClock accepts `"11abc"` for
    11 (`PuzzleClock.TrailingTextIgnored`).
- **Puzzle kinds.** PuzzleClock draws one of its ten kinds at random on every
  generation; there is no progression between kinds.

## Model

| member | source | states |
|---|---|---|
| JsString.Trim | src/components/puzzleClock.js:190 | the result neither starts nor ends with white space |
| JsString.TrimStart | src/components/puzzleClock.js:190 | what is left after the leading white space is a suffix of the input that does not start with white space |
| JsString.TrimStartDropsSpaces | src/components/puzzleClock.js:190 | everything dropped from the front is white space |
| JsString.TrimEnd | src/components/puzzleClock.js:190 | what is left after the trailing white space is a prefix of the input that does not end with white space |
| JsString.TrimEndDropsSpaces | src/components/puzzleClock.js:190 | everything dropped from the end is white space |
| JsString.TrimOfTrimmed | src/components/puzzleClock.js:190 | a string with no white space at either end is its own trim |
| JsString.TrimAround | src/components/puzzleClock.js:190 | `trim` removes exactly the white space around a core that has none at its ends |
| JsString.TrimStartSkipsSpaces | src/components/puzzleClock.js:189-190 | leading white space never changes what is left after skipping white space |
| JsString.TrimEndSkipsSpaces | src/components/puzzleClock.js:190 | trailing white space never changes what is left after stripping the end |
| JsString.TrimStartOfSpaces | src/components/puzzleClock.js:190 | nothing is left of a string of white space |
| JsString.Lower | src/components/puzzleClock.js:190-194 | `toLowerCase` on ASCII: keeps the length and lowers each letter; the case-insensitivity it gives is `PuzzleClock.TextMatchIgnoresSpacesAndCase` |
| JsString.Join | src/components/puzzleClock.js:53-55 | definition of `Array.prototype.join` (also used at lines 113 and 157-159): the parts with the separator between neighbours; its ends are `PuzzleRules.JoinEnds` |
| JsString.ToRadix | src/components/puzzleClock.js:167 | `toString(radix)` writes digits of the radix, without a leading zero, whose value is n; decimal digits when the radix is at most 10 |
| JsString.ToRadixNoLeadingZero | src/components/puzzleClock.js:167 | `toString(radix)` writes a leading zero only for the single digit 0 |
| JsString.ToRadixOfValue | src/components/puzzleClock.js:167 | every digit string without a leading zero is exactly what `toString(radix)` writes for its value |
| JsString.DecimalString | src/components/puzzleClock.js:67 | the decimal text of an integer is non-empty, has no white space at either end, and starts with '-' exactly for a negative number |
| JsString.FixedHundredths | src/components/puzzleClock.js:82 | definition of `toFixed(2)` for h hundredths (also line 147): the whole part, a point, two fraction digits; read back by `JsNumber.ParseFloatFixedHundredths` |
| JsNumber.ParseFloatDecimalString | src/components/puzzleClock.js:189 | `parseFloat` reads the decimal text of m followed by any text that does not continue the number as m times ten to the exponent part of that text |
| JsNumber.ParseFloatNumberText | src/components/puzzleClock.js:189 | `parseFloat` reads back the text `NumberText` writes for every decimal |
| JsNumber.ParseFloat | src/components/puzzleClock.js:189 | definition of `parseFloat`: skip leading white space, then read a signed decimal literal; NaN without a digit. Its round trips and edge cases are the ParseFloat lemmas in this table |
| JsNumber.SignedFloat | src/components/puzzleClock.js:189 | definition: an optional sign, then the unsigned literal, negated after a minus |
| JsNumber.UnsignedFloat | src/components/puzzleClock.js:189 | definition: the longest digit run, then an optional point and fraction digits, then the exponent part |
| JsNumber.FloatValue | src/components/puzzleClock.js:189 | definition: the literal's value as mantissa and exponent, NaN when it has no digit at all |
| JsNumber.ExponentPart | src/components/puzzleClock.js:189 | definition: an `e` or `E` with an optional sign and digits; read back by `ExponentPartOf` |
| JsNumber.ParseFloatFixedHundredths | src/components/puzzleClock.js:82 | `parseFloat` reads the `toFixed(2)` text of h hundredths back as exactly h hundredths |
| JsNumber.UnsignedFloatWithFraction | src/components/puzzleClock.js:189 | digits, a point and fraction digits read as one decimal with as many fraction digits |
| JsNumber.ParseFloatSkipsSpaces | src/components/puzzleClock.js:189 | leading white space never changes what `parseFloat` reads |
| JsNumber.ParseFloatNeedsDigit | src/components/puzzleClock.js:189 | text without a digit is NaN to `parseFloat` |
| JsNumber.LeadingDigits | src/components/puzzleClock.js:189 | the digits `parseFloat` reads are the longest prefix of digits of the radix: the next character, if any, is not one |
| JsNumber.LeadingDigitsOf | src/components/puzzleClock.js:189 | a run of digits followed by a non-digit is read as exactly that run |
| JsNumber.NoLeadingDigits | src/components/puzzleClock.js:189 | text that does not start with a digit yields no digits |
| JsNumber.DecimalStringParts | src/components/puzzleClock.js:189 | the decimal text of n, followed by any text, has no leading white space, starts with a minus exactly when n < 0, and after the sign holds the digits of abs(n) |
| JsNumber.UnsignedFloatOfDigits | src/components/puzzleClock.js:189 | digits followed by text that neither continues them nor starts a fraction read as their value, scaled by that text's exponent part |
| JsNumber.ExponentPartOf | src/components/puzzleClock.js:189 | an "e" followed by the decimal text of e is read as the exponent e |
| JsNumber.NoDigitsAfterSign | src/components/puzzleClock.js:189 | what is left after leading white space and a sign is still digit-free when the input is |
| JsNumber.ParseIntDecimalString | src/components/ToggleableClock.js:36 | `parseInt` reads back the decimal text of n, followed by any text that is neither a digit nor an 'x' |
| JsNumber.ParseIntNeedsDigit | src/components/ToggleableClock.js:36 | text without a digit is NaN to `parseInt` |
| JsNumber.ParseInt | src/components/ToggleableClock.js:36 | definition of `parseInt` without a radix: skip white space and a sign, then read decimal digits, or hex digits after `0x`; NaN without a digit. Read back by `ParseIntDecimalString` |
| JsNumber.UnsignedInt | src/components/ToggleableClock.js:36 | definition: the base-16 digits after `0x`/`0X`, else the decimal digits, at the start of the text |
| JsNumber.UnsignedIntOfDigits | src/components/ToggleableClock.js:36 | decimal digits without a leading zero, followed by text that neither continues them nor forms a hex prefix, are read by `parseInt` as their value |
| PuzzleRules.DoublingSequence | src/components/puzzleClock.js:48-51 | the sequence has five terms |
| PuzzleRules.SequenceAnswer | src/components/puzzleClock.js:47-56 | each term doubles the one before it, and the answer is 2^5 = 32 times the start |
| PuzzleRules.SequencePuzzle | src/components/puzzleClock.js:45-57 | definition: the five doubling terms joined with ", " and twice the last as the answer; values fixed by `SequenceAnswer` |
| PuzzleRules.RoundedHundredths | src/components/puzzleClock.js:82 | `toFixed(2)` of num1 / divisor: the number of hundredths nearest to the quotient, the larger one on a tie |
| PuzzleRules.RoundedHundredthsUnique | src/components/puzzleClock.js:82 | only one number of hundredths meets that nearness bound |
| PuzzleRules.RoundedHundredthsNonNegative | src/components/puzzleClock.js:82 | the rounded quotient of the non-negative operands is never negative, so its `toFixed(2)` text carries no sign |
| PuzzleRules.DivisionExactWhenDivisible | src/components/puzzleClock.js:78-82 | a division that comes out even is answered with its exact quotient |
| PuzzleRules.ArithmeticPuzzle | src/components/puzzleClock.js:59-87 | definition: the operands and sign as the question; the sum, difference, product, or rounded quotient as the answer |
| PuzzleRules.QuestionReadsFirstOperand | src/components/puzzleClock.js:67-81 | the arithmetic question reads under `parseFloat` as its first operand |
| PuzzleRules.QuestionShowsOperatorAndSecondOperand | src/components/puzzleClock.js:67-81 | after the first operand the question shows the operation's sign between spaces and then the decimal text of the second operand, which reads back as that operand |
| PuzzleRules.DivisionAnswerReadsFixedText | src/components/puzzleClock.js:82 | the division answer is exactly what `parseFloat` reads from the `toFixed(2)` text of the rounded quotient |
| PuzzleRules.IsPrime | src/components/puzzleClock.js:92-97 | trial division up to the square root answers true exactly when n > 1 and no k in 2..n-1 divides n |
| PuzzleRules.SmallCoDivisor | src/components/puzzleClock.js:93 | a divisor of n at or above the bound i, where i * i > n, has a co-divisor in 2..i-1 |
| PuzzleRules.CoDivisorAtLeastTwo | src/components/puzzleClock.js:93 | a divisor k of n with 0 < k < n leaves a co-divisor of at least 2 |
| PuzzleRules.CoDivisorBelow | src/components/puzzleClock.js:93 | a divisor of n at or above i, where i * i > n, leaves a co-divisor below i |
| PuzzleRules.TrialDivisionSuffices | src/components/puzzleClock.js:93-96 | when no k in 2..i-1 divides n and i * i > n, no k in 2..n-1 does |
| PuzzleRules.PrimePuzzle | src/components/puzzleClock.js:89-101 | definition: "yes" or "no" as the loop decides; `IsPrime` ties the decision to primality |
| PuzzleRules.Factors | src/components/puzzleClock.js:106-114 | the loop collects exactly the divisors of n in 1..n, in increasing order |
| PuzzleRules.DivisorsUpToExact | src/components/puzzleClock.js:106-114 | the factor list lies in 1..k, is strictly increasing, and holds d exactly when 1 <= d <= k and d divides n |
| PuzzleRules.FactorsFirstAndLast | src/components/puzzleClock.js:108-113 | for n >= 1 the factor list is non-empty, starts with 1 and ends with n |
| PuzzleRules.FactorPuzzle | src/components/puzzleClock.js:103-118 | definition: the factor list joined with ", " as a text answer; the list is `Factors` and its content `DivisorsUpToExact` |
| PuzzleRules.Remainder | src/components/puzzleClock.js:125 | the remainder lies in 0..num4-1 and num3 = q * num4 + remainder |
| PuzzleRules.RemainderUnique | src/components/puzzleClock.js:120-125 | the answer is the only r in 0..num4-1 that leaves num3 - r a multiple of num4 |
| PuzzleRules.ModuloPuzzle | src/components/puzzleClock.js:120-126 | definition: the remainder of num3 by num4 as the answer; characterised by `Remainder` and `RemainderUnique` |
| PuzzleRules.ShownAfter | src/components/puzzleClock.js:131 | after its fixed prefix, a root question reads as the number it shows |
| PuzzleRules.RootPuzzlesShowPowers | src/components/puzzleClock.js:128-140 | the square-root question shows the square of its answer, and the cube-root question the cube of its answer |
| PuzzleRules.SquareRootPuzzle | src/components/puzzleClock.js:128-133 | definition: shows the square and answers the root; related by `RootPuzzlesShowPowers` |
| PuzzleRules.CubeRootPuzzle | src/components/puzzleClock.js:135-140 | definition: shows the cube and answers the root; related by `RootPuzzlesShowPowers` |
| PuzzleRules.PercentageWhenWhole | src/components/puzzleClock.js:142-147 | a percentage that comes out whole is answered with that whole number |
| PuzzleRules.PercentagePuzzle | src/components/puzzleClock.js:142-148 | definition: total * percentage hundredths as the answer |
| PuzzleRules.PercentageAnswerReadsFixedText | src/components/puzzleClock.js:147 | the percentage answer is exactly what `parseFloat` reads from the `toFixed(2)` text of total * percentage / 100 |
| PuzzleRules.MissingNumberAnswer | src/components/puzzleClock.js:150-160 | the series term at index i is 2^(i+1), and that term is the answer |
| PuzzleRules.SeriesReadsBack | src/components/puzzleClock.js:150-159 | every term shown in the series reads back under `parseFloat` as 2^(i+1), and the gap at the missing index reads as NaN |
| PuzzleRules.MissingNumberPuzzle | src/components/puzzleClock.js:150-161 | definition: the series joined with ", " with "?" at the drawn index, and the replaced term as the answer; read back by `SeriesReadsBack` and `MissingNumberAnswer` |
| PuzzleRules.BinaryAnswerIsNumeral | src/components/puzzleClock.js:163-167 | the binary answer for n >= 1 is a string of '0' and '1' starting with '1' whose base-2 value is n |
| PuzzleRules.BinaryNumeralIsAnswer | src/components/puzzleClock.js:163-167 | every such string is the binary answer for its own value |
| PuzzleRules.BinaryPuzzle | src/components/puzzleClock.js:163-168 | definition: `toString(2)` of the drawn number as a text answer; its round trip is `BinaryAnswerIsNumeral` and `BinaryNumeralIsAnswer` |
| PuzzleRules.BuildPuzzle | src/components/puzzleClock.js:20-172 | the switch over the drawn kind builds the puzzle the rules give for the draws |
| PuzzleRules.PuzzleFor | src/components/puzzleClock.js:20-172 | definition: the puzzle of the drawn kind for the draws; `BuildPuzzle` is proved to compute it |
| PuzzleRules.ValidDraws | src/components/puzzleClock.js:21-164 | definition: every `Math.floor(Math.random() * k) + c` draw lies in c..c+k-1, and the kind and operation indices in range |
| PuzzleRules.JoinEnds | src/components/puzzleClock.js:113 | a join starts with its first part's first character and ends with its last part's last character |
| PuzzleRules.PrimeAnswerTrimmed | src/components/puzzleClock.js:100 | "yes" and "no" are their own trim |
| PuzzleRules.FactorAnswerTrimmed | src/components/puzzleClock.js:113-117 | the factor answer is its own trim |
| PuzzleRules.BinaryAnswerTrimmed | src/components/puzzleClock.js:167 | the binary answer is its own trim |
| PuzzleRules.TextAnswersAreTrimmed | src/components/puzzleClock.js:186-194 | every text answer the generator builds is its own trim |
| PuzzleClock.GeneratedResets | src/components/puzzleClock.js:174-177 | generating clears the input, locks the toggle, keeps the clock type and installs the new puzzle |
| PuzzleClock.Mounted | src/components/puzzleClock.js:7-11 | definition: the initial state (analog, locked, empty input) with the first generated puzzle installed |
| PuzzleClock.Generated | src/components/puzzleClock.js:174-177 | definition of the four setters at the end of `generatePuzzle`; what they keep and change is `GeneratedResets` |
| PuzzleClock.Matches | src/components/puzzleClock.js:187-196 | definition of the comparison in `checkPuzzle`: by `parseFloat` for a number answer, by trimmed lower-case text for a text answer |
| PuzzleClock.NumberMatches | src/components/puzzleClock.js:189-196 | definition: `parseFloat(input) === answer`, false on NaN; see `IntegerMatchesIffEqual`, `TrailingTextIgnored`, `NoDigitNeverMatches` |
| PuzzleClock.TextMatches | src/components/puzzleClock.js:190-196 | definition: `input.trim().toLowerCase() === answer.toLowerCase()`; see `TextMatchIgnoresSpacesAndCase` |
| PuzzleClock.FixedTextSolvesDivision | src/components/puzzleClock.js:82-196 | typing the quotient as `toFixed(2)` writes it, such as "0.33" for 1 / 3, solves a division puzzle |
| PuzzleClock.CheckedSolvesIffMatches | src/components/puzzleClock.js:186-202 | checking solves exactly when the input matches; a mismatch changes nothing; a match changes only the solved flag |
| PuzzleClock.Checked | src/components/puzzleClock.js:196-197 | definition: the solved flag is set on a match; see `CheckedSolvesIffMatches` |
| PuzzleClock.Toggled | src/components/puzzleClock.js:205-208 | definition: the clock type flips, then a new puzzle is generated |
| PuzzleClock.Step | src/components/puzzleClock.js:236-300 | definition of one user event on the rendered page: typing and the Submit and Change Puzzle buttons act only while unsolved, the toggle only once solved; see `StepFlags` and `ToggleButtonGate` |
| PuzzleClock.Run | src/components/puzzleClock.js:236-300 | definition: the events applied in order; its properties are `ToggleParity` and `TogglesNeedSolutions` |
| PuzzleClock.ToggleButtonGate | src/components/puzzleClock.js:236-238 | a press of the toggle flips the clock type once, clears the input and relocks when solved, and changes nothing when not |
| PuzzleClock.StepFlags | src/components/puzzleClock.js:205-238 | only an effective toggle flips the clock type; only a submission can set the solved flag, and a toggle clears it |
| PuzzleClock.ExactAnswerSolves | src/components/puzzleClock.js:186-196 | typing `AnswerText` of the expected answer solves every puzzle the generator can build; for a number answer that text is mantissa, `e`, exponent (such as "33e-2"), not JavaScript's own "0.33", which `FixedTextSolvesDivision` covers |
| PuzzleClock.GenerableAnswerSolves | src/components/puzzleClock.js:186-196 | the same, for any puzzle some draws produce |
| PuzzleClock.IntegerMatchesIffEqual | src/components/puzzleClock.js:187-196 | an integer typed for a whole-number answer matches exactly when it equals it |
| PuzzleClock.TrailingTextIgnored | src/components/puzzleClock.js:189 | text after a whole-number answer that cannot continue the number is ignored |
| PuzzleClock.NoDigitNeverMatches | src/components/puzzleClock.js:189-196 | input without a digit is NaN and never matches a number answer |
| PuzzleClock.TextMatchIgnoresSpacesAndCase | src/components/puzzleClock.js:190-196 | a text answer matches with white space around it and in upper case |
| PuzzleClock.ToggleParity | src/components/puzzleClock.js:205-208 | after any run of events the clock type has flipped exactly when an odd number of toggles took effect |
| PuzzleClock.TogglesNeedSolutions | src/components/puzzleClock.js:236-238 | in any run, effective toggles never outnumber successful submissions (plus one if the start was solved) |
| PuzzleClock.SolveBetweenToggles | src/components/puzzleClock.js:186-208 | toggle, type the new answer, submit, toggle: both toggles take effect, ending in the state the handlers give |
| PuzzleClock.TwoSolvedTogglesRestore | src/components/puzzleClock.js:205-208 | two toggles, each preceded by a solution, bring the clock type back and leave it locked |
| PuzzleClock.Session.constructor | src/components/puzzleClock.js:7-11 | mounting and the first generation give an analog clock, locked, with an empty input and the generated puzzle |
| PuzzleClock.Session.GeneratePuzzle | src/components/puzzleClock.js:20-178 | the state becomes the generated state for the drawn puzzle |
| PuzzleClock.Session.SetUserInput | src/components/puzzleClock.js:272 | only the input changes |
| PuzzleClock.Session.CheckPuzzle | src/components/puzzleClock.js:186-202 | reports whether the input matches the answer, and the state becomes the checked state |
| PuzzleClock.Session.ToggleClock | src/components/puzzleClock.js:205-208 | flips the clock type and generates a new puzzle |
| PuzzleClock.Session.PressToggle | src/components/puzzleClock.js:236-238 | toggleClock runs exactly when the puzzle is solved; otherwise nothing changes |
| ToggleableClock.AdditionBounds | src/components/ToggleableClock.js:21-24 | the expected sum of two drawn operands lies in 2..40, and the question reads as its first operand |
| ToggleableClock.AdditionOf | src/components/ToggleableClock.js:20-24 | definition: the question `${num1} + ${num2}` and the answer num1 + num2; see `AdditionBounds` and `QuestionShowsSecondOperand` |
| ToggleableClock.AdditionQuestion | src/components/ToggleableClock.js:23 | definition of the question text; read back by `AdditionBounds` and `QuestionShowsSecondOperand` |
| ToggleableClock.SumMatches | src/components/ToggleableClock.js:36 | definition: `parseInt(userInput) === puzzleAnswer`; see `IntegerMatchesIffEqual`, `FractionAccepted`, `NoDigitNeverMatches` |
| ToggleableClock.QuestionShowsSecondOperand | src/components/ToggleableClock.js:23 | the first operand is followed by " + ", and the rest of the question reads as the second operand |
| ToggleableClock.IntegerMatchesIffEqual | src/components/ToggleableClock.js:36 | a typed integer solves the puzzle exactly when it is the sum |
| ToggleableClock.FractionAccepted | src/components/ToggleableClock.js:36 | the sum followed by a decimal point and any text is accepted |
| ToggleableClock.NoDigitNeverMatches | src/components/ToggleableClock.js:36 | input without a digit never matches |
| ToggleableClock.CheckedSolvesIffMatches | src/components/ToggleableClock.js:35-42 | checking solves exactly when `parseInt` gives the sum; a mismatch changes nothing |
| ToggleableClock.Mounted | src/components/ToggleableClock.js:7-11 | definition: the initial state with the first addition installed |
| ToggleableClock.Generated | src/components/ToggleableClock.js:23-26 | definition of the four setters in `generatePuzzle` |
| ToggleableClock.Checked | src/components/ToggleableClock.js:36-37 | definition: the solved flag is set when `SumMatches`; see `CheckedSolvesIffMatches` |
| ToggleableClock.Toggled | src/components/ToggleableClock.js:45-48 | definition: the clock type flips, then a new addition is generated |
| ToggleableClock.Step | src/components/ToggleableClock.js:76-119 | definition of one user event: typing and Submit act only while unsolved, the toggle only once solved; see `StepFlags` and `ToggleButtonGate` |
| ToggleableClock.Run | src/components/ToggleableClock.js:76-119 | definition: the events applied in order; see `ToggleParity` and `TogglesNeedSolutions` |
| ToggleableClock.ToggleButtonGate | src/components/ToggleableClock.js:76-78 | a press of the toggle flips the clock type once and relocks when solved, and changes nothing when not |
| ToggleableClock.StepFlags | src/components/ToggleableClock.js:45-78 | only an effective toggle flips the clock type; only a submission can set the solved flag, and a toggle clears it |
| ToggleableClock.ToggleParity | src/components/ToggleableClock.js:45-48 | after any run of events the clock type has flipped exactly when an odd number of toggles took effect |
| ToggleableClock.TogglesNeedSolutions | src/components/ToggleableClock.js:76-78 | in any run, effective toggles never outnumber successful submissions (plus one if the start was solved) |
| ToggleableClock.SolveBetweenToggles | src/components/ToggleableClock.js:35-48 | toggle, type text that `parseInt` reads as the new sum, submit, toggle: both toggles take effect, ending in the state the handlers give |
| ToggleableClock.TwoSolvedTogglesRestore | src/components/ToggleableClock.js:35-48 | two toggles, each preceded by typing the sum and submitting, bring the clock type back and leave it locked |
| ToggleableClock.AdditionSession.constructor | src/components/ToggleableClock.js:7-11 | mounting and the first generation give an analog clock, locked, with an empty input and the drawn sum |
| ToggleableClock.AdditionSession.GeneratePuzzle | src/components/ToggleableClock.js:20-27 | new question and sum, input cleared, toggle locked, clock type kept |
| ToggleableClock.AdditionSession.SetUserInput | src/components/ToggleableClock.js:106 | only the input changes |
| ToggleableClock.AdditionSession.CheckPuzzle | src/components/ToggleableClock.js:35-42 | reports whether `parseInt` of the input is the sum, and solves exactly then |
| ToggleableClock.AdditionSession.ToggleClock | src/components/ToggleableClock.js:45-48 | flips the clock type and generates a new puzzle |
| ToggleableClock.AdditionSession.PressToggle | src/components/ToggleableClock.js:76-78 | toggleClock runs exactly when the puzzle is solved; otherwise nothing changes |
| AnalogClock.HandBounds | src/components/analogClock.js:13-19 | the second hand is at most 354°, the minute hand at most 359.9° and the hour hand at most 359.5° |
| AnalogClock.SecondHand | src/components/analogClock.js:17 | definition: `seconds * 6` degrees, in tenths |
| AnalogClock.MinuteHand | src/components/analogClock.js:18 | definition: `minutes * 6 + seconds * 0.1` degrees, in tenths |
| AnalogClock.HourHand | src/components/analogClock.js:15-19 | definition: `(hours % 12) * 30 + minutes * 0.5` degrees, in tenths |
| AnalogClock.TwelveHourPeriod | src/components/analogClock.js:15-19 | hours h and h + 12 give the same hour hand |
| AnalogClock.MinuteHandOnMark | src/components/analogClock.js:18 | the minute hand is on a whole-minute mark exactly when the seconds are zero, and is then 6° per minute |
| AnalogClock.MinuteHandMonotone | src/components/analogClock.js:18 | within an hour, a later (minute, second) gives a strictly larger minute hand, and conversely |
| AnalogClock.HourHandMonotone | src/components/analogClock.js:19 | within twelve hours, a later (hour, minute) gives a strictly larger hour hand, and conversely |
| AnalogClock.HourHandTracksMinuteHand | src/components/analogClock.js:18-19 | twelve times the hour hand, less whole turns, is the minute hand without its seconds part |

## Left out

- AnalogClock.MinuteHand: the source computes `seconds * 0.1` in binary floating point, which can be one unit in the last place off the exact tenth (3 * 0.1 is 0.30000000000000004); the model uses exact tenths of a degree and ignores that difference. `minutes * 0.5` is exact.
- The clock time: `new Date()`, the one-second `setInterval` and its cleanup. Analog hands take the hour, minute and second as parameters.
- Rendering: JSX, styles, the react-clock `Clock` component, `toLocaleTimeString`, and the button label. Only the conditions that enable controls are modelled.
- `alert`: its two messages become the `correct` result of `CheckPuzzle`.
- `src/components/Clock.js` is not part of this model.
- `Math.random`: every draw is a parameter bounded as the draw is (`ValidDraws`, `ValidOperand`).
- The `null` answer before the first puzzle is generated. The constructors stand for mounting together with the effect that generates the first puzzle. `checkPuzzle` on `null` would throw.
- JsNumber.ParseFloat: reads every input as an exact decimal. Rounding to the nearest double is left out. So inputs that differ only beyond double precision compare unequal here and equal in JavaScript. Underflow is left out too: JavaScript reads "1e-400" as 0, so it solves a puzzle whose answer is 0 (such as 20 % 5 or 7 - 7), and here it does not. Overflow to Infinity is likewise left out.
- JsNumber.ParseInt: reads a digit string as an exact integer, where JavaScript rounds values past 2^53 to the nearest double. The sums compared in ToggleableClock are 2 to 40, so this does not change which inputs solve them.
- JsNumber.ParseFloat: does not model the `Infinity` literal.
- PuzzleRules.RoundedHundredths: computed on exact values. This agrees with `toFixed(2)` on the double quotient for divisors up to 20. The only ties there are multiples of 1/8, which are exact doubles, and JavaScript rounds those up.
- JsString.Lower: lowers the ASCII letters only, not all of Unicode.
- PuzzleRules.IsPrime: tests `i * i <= n` where the source tests `i <= Math.sqrt(n)`. The two agree for the non-negative integers drawn.
- The `type="number"` restriction of ToggleableClock's input field: the browser's filtering of what can be typed is not modelled, and any string is allowed.
- Concurrency between React state updates: each handler's updates are applied together, as React batches them.

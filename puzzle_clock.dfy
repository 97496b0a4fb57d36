/** The PuzzleClock component: a clock whose analog/digital toggle stays
    locked until the current puzzle is answered, with the state the component
    keeps (isAnalog, isPuzzleSolved, userInput, puzzle, puzzleAnswer). */
module PuzzleClock {
  import opened JsString
  import opened JsNumber
  import opened Arithmetic
  import opened PuzzleRules

  /** checkPuzzle's comparison: a number answer is compared with
      parseFloat(userInput) by ===, so NaN never matches; a text answer is
      compared with the trimmed, lower-cased input. */
  predicate Matches(input: string, answer: Answer) {
    match answer
    case Number(v) => NumberMatches(input, v)
    case Text(t) => TextMatches(input, t)
  }

  /** parseFloat(input) === v. */
  predicate NumberMatches(input: string, v: Decimal) {
    ParseFloat(input).Some? && SameValue(ParseFloat(input).value, v)
  }

  /** input.trim().toLowerCase() === t.toLowerCase(). */
  predicate TextMatches(input: string, t: string) {
    Lower(Trim(input)) == Lower(t)
  }

  /** The component's state, the clock time left out. */
  datatype ClockState = ClockState(
    isAnalog: bool,
    isPuzzleSolved: bool,
    userInput: string,
    puzzle: string,
    puzzleAnswer: Answer)

  /** The puzzles generatePuzzle can produce: one for each possible set of draws. */
  ghost predicate Generable(p: Puzzle) {
    exists d :: ValidDraws(d) && PuzzleFor(d) == p
  }

  /** The state once the component has mounted and its effect has generated
      the first puzzle p: analog, locked, empty input. */
  function Mounted(p: Puzzle): ClockState {
    ClockState(true, false, "", p.question, p.answer)
  }

  /** generatePuzzle with the new puzzle p: the input cleared, the toggle locked. */
  function Generated(s: ClockState, p: Puzzle): ClockState {
    s.(isPuzzleSolved := false, userInput := "", puzzle := p.question, puzzleAnswer := p.answer)
  }

  /** checkPuzzle: a matching input unlocks the toggle, anything else changes nothing. */
  function Checked(s: ClockState): ClockState {
    if Matches(s.userInput, s.puzzleAnswer) then s.(isPuzzleSolved := true) else s
  }

  /** toggleClock: the clock type flips and the new puzzle p is generated. */
  function Toggled(s: ClockState, p: Puzzle): ClockState {
    Generated(s.(isAnalog := !s.isAnalog), p)
  }

  /** What the user can do. The puzzle a button carries is the one
      generatePuzzle produces from its Math.random draws. */
  datatype Event =
    | Input(text: string)
    | SubmitButton
    | ChangeButton(next: Puzzle)
    | ToggleButton(next: Puzzle)

  /** One event as the rendered page handles it: the input field and the Submit
      and Change Puzzle buttons are only shown while the puzzle is unsolved, and
      the toggle button is disabled until it is solved. */
  function Step(s: ClockState, e: Event): ClockState {
    match e
    case Input(text) => if s.isPuzzleSolved then s else s.(userInput := text)
    case SubmitButton => if s.isPuzzleSolved then s else Checked(s)
    case ChangeButton(p) => if s.isPuzzleSolved then s else Generated(s, p)
    case ToggleButton(p) => if s.isPuzzleSolved then Toggled(s, p) else s
  }

  function Run(s: ClockState, evs: seq<Event>): ClockState
    decreases |evs|
  {
    if evs == [] then s else Run(Step(s, evs[0]), evs[1..])
  }

  /** How many presses of the toggle button took effect. */
  function Toggles(s: ClockState, evs: seq<Event>): nat
    decreases |evs|
  {
    if evs == [] then 0
    else (if evs[0].ToggleButton? && s.isPuzzleSolved then 1 else 0) + Toggles(Step(s, evs[0]), evs[1..])
  }

  /** How many submissions solved the puzzle. */
  function Unlocks(s: ClockState, evs: seq<Event>): nat
    decreases |evs|
  {
    if evs == [] then 0
    else (if evs[0].SubmitButton? && !s.isPuzzleSolved && Checked(s).isPuzzleSolved then 1 else 0)
         + Unlocks(Step(s, evs[0]), evs[1..])
  }

  // ------------------------------------------------------------- one step

  /** Generating a puzzle clears the input and locks the toggle, whatever the
      state, and keeps the clock type. */
  lemma GeneratedResets(s: ClockState, p: Puzzle)
    ensures var r := Generated(s, p);
            && r.userInput == "" && !r.isPuzzleSolved && r.isAnalog == s.isAnalog
            && Puzzle(r.puzzle, r.puzzleAnswer) == p
  {
  }

  /** Checking solves exactly when the input matches; a mismatch changes nothing
      and a match changes nothing but the solved flag. */
  lemma CheckedSolvesIffMatches(s: ClockState)
    ensures Checked(s).isPuzzleSolved <==> s.isPuzzleSolved || Matches(s.userInput, s.puzzleAnswer)
    ensures !Matches(s.userInput, s.puzzleAnswer) ==> Checked(s) == s
    ensures Checked(s).(isPuzzleSolved := s.isPuzzleSolved) == s
  {
  }

  /** A press of the toggle button flips the clock type once and relocks when
      the puzzle is solved, and changes nothing when it is not. */
  lemma ToggleButtonGate(s: ClockState, p: Puzzle)
    ensures var r := Step(s, ToggleButton(p));
            if s.isPuzzleSolved then r.isAnalog == !s.isAnalog && !r.isPuzzleSolved && r.userInput == ""
            else r == s
  {
  }

  // --------------------------------------------------------------- answers

  /** SameValue is reflexive. */
  lemma SameValueRefl(v: Decimal)
    ensures SameValue(v, v)
  {
    assert Pow10(0) == 1;
  }

  /** Typing the text of the expected answer solves every puzzle the
      generator can build. */
  lemma ExactAnswerSolves(d: Draws)
    requires ValidDraws(d)
    ensures Matches(AnswerText(PuzzleFor(d).answer), PuzzleFor(d).answer)
  {
    match PuzzleFor(d).answer
    case Number(v) =>
      ParseFloatNumberText(v);
      SameValueRefl(v);
    case Text(t) =>
      TextAnswersAreTrimmed(d);
  }

  /** Typing the quotient as toFixed(2) writes it (such as "0.33" for 1 / 3)
      solves a division puzzle. */
  lemma FixedTextSolvesDivision(num1: nat, divisor: int)
    requires divisor >= 1
    ensures RoundedHundredths(num1, divisor) >= 0
    ensures Matches(FixedHundredths(RoundedHundredths(num1, divisor)), ArithmeticPuzzle(Divide, num1, divisor).answer)
  {
    RoundedHundredthsNonNegative(num1, divisor);
    FixedTextSolves(RoundedHundredths(num1, divisor), ArithmeticPuzzle(Divide, num1, divisor));
  }

  /** The toFixed(2) text of h hundredths solves a puzzle whose answer is
      h hundredths. */
  lemma FixedTextSolves(h: nat, p: Puzzle)
    requires p.answer == Number(Decimal(h, -2))
    ensures Matches(FixedHundredths(h), p.answer)
  {
    ParseFloatFixedHundredths(h);
    SameValueRefl(Decimal(h, -2));
  }

  /** The same, for a puzzle known only to be generable. */
  lemma GenerableAnswerSolves(p: Puzzle)
    requires Generable(p)
    ensures Matches(AnswerText(p.answer), p.answer)
  {
    var d :| ValidDraws(d) && PuzzleFor(d) == p;
    ExactAnswerSolves(d);
  }

  /** An integer typed for a whole-number answer matches exactly when it is
      that number. */
  lemma IntegerMatchesIffEqual(k: int, n: int)
    ensures Matches(DecimalString(k), Whole(n)) <==> k == n
  {
    assert DecimalString(k) == DecimalString(k) + [];
    ParseFloatDecimalString(k, []);
    assert Pow10(0) == 1;
  }

  /** parseFloat stops at the first character that cannot continue the
      number, so text after a whole-number answer is ignored. */
  lemma TrailingTextIgnored(n: int, rest: string)
    requires rest == [] || (DigitValue(rest[0]) >= 10 && rest[0] !in ".eE")
    ensures Matches(DecimalString(n) + rest, Whole(n))
  {
    ParseFloatDecimalString(n, rest);
    SameValueRefl(Decimal(n, 0));
  }

  /** Input without a single digit is NaN to parseFloat and never matches a
      number answer. */
  lemma NoDigitNeverMatches(input: string, v: Decimal)
    requires NoDigits(input)
    ensures !Matches(input, Number(v))
  {
    ParseFloatNeedsDigit(input);
  }

  /** Text answers ignore surrounding white space and letter case. */
  lemma TextMatchIgnoresSpacesAndCase(w1: string, t: string, w2: string)
    requires AllSpaces(w1) && AllSpaces(w2)
    requires t == [] || (!IsSpace(t[0]) && !IsSpace(t[|t| - 1]))
    ensures Matches(w1 + t + w2, Text(t))
    ensures Matches(w1 + Upper(t) + w2, Text(t))
  {
    TrimAround(w1, t, w2);
    UpperAround(w1, t, w2);
  }

  /** The upper-cased answer, padded with white space, trims and lower-cases
      back to the lower-cased answer. */
  lemma UpperAround(w1: string, t: string, w2: string)
    requires AllSpaces(w1) && AllSpaces(w2)
    requires t == [] || (!IsSpace(t[0]) && !IsSpace(t[|t| - 1]))
    ensures Lower(Trim(w1 + Upper(t) + w2)) == Lower(t)
  {
    UpperKeepsEnds(t);
    TrimAround(w1, Upper(t), w2);
    LowerUpper(t);
  }

  /** Upper-casing leaves white space where it was. */
  lemma UpperKeepsEnds(t: string)
    ensures t == [] || (IsSpace(Upper(t)[0]) == IsSpace(t[0]) && IsSpace(Upper(t)[|t| - 1]) == IsSpace(t[|t| - 1]))
  {
  }

  /** Lower-casing forgets an upper-casing. */
  lemma LowerUpper(t: string)
    ensures Lower(Upper(t)) == Lower(t)
  {
    assert forall i :: 0 <= i < |t| ==> Lower(Upper(t))[i] == Lower(t)[i];
  }

  /** toUpperCase on the ASCII letters (used to state case-insensitivity). */
  function Upper(s: string): (r: string)
    ensures |r| == |s|
  {
    seq(|s|, i requires 0 <= i < |s| => if 'a' <= s[i] <= 'z' then (s[i] as int - 32) as char else s[i])
  }

  // ---------------------------------------------------------------- runs

  /** What one event does to the clock type and the lock. */
  lemma StepFlags(s: ClockState, e: Event)
    ensures Step(s, e).isAnalog == (if e.ToggleButton? && s.isPuzzleSolved then !s.isAnalog else s.isAnalog)
    ensures Step(s, e).isPuzzleSolved ==
            (if e.ToggleButton? then false
             else if e.SubmitButton? then s.isPuzzleSolved || Checked(s).isPuzzleSolved
             else s.isPuzzleSolved)
  {
  }

  /** The clock type has flipped exactly when an odd number of toggles took effect. */
  lemma {:induction false} ToggleParity(s: ClockState, evs: seq<Event>)
    decreases |evs|
    ensures Run(s, evs).isAnalog == (s.isAnalog == (Toggles(s, evs) % 2 == 0))
  {
    if evs != [] {
      var next := Step(s, evs[0]);
      var fired := evs[0].ToggleButton? && s.isPuzzleSolved;
      StepFlags(s, evs[0]);
      ToggleParity(next, evs[1..]);
      var t := Toggles(next, evs[1..]);
      assert Run(s, evs) == Run(next, evs[1..]);
      assert Toggles(s, evs) == (if fired then 1 else 0) + t;
      ParityCons(s.isAnalog, next.isAnalog, fired, t, Run(next, evs[1..]).isAnalog);
    }
  }

  /** Every toggle that takes effect is paid for by a solved puzzle: a
      solution unlocks at most one toggle, and generating relocks. */
  lemma {:induction false} TogglesNeedSolutions(s: ClockState, evs: seq<Event>)
    decreases |evs|
    ensures Toggles(s, evs) + (if Run(s, evs).isPuzzleSolved then 1 else 0)
            <= Unlocks(s, evs) + (if s.isPuzzleSolved then 1 else 0)
  {
    if evs != [] {
      StepFlags(s, evs[0]);
      TogglesNeedSolutions(Step(s, evs[0]), evs[1..]);
    }
  }

  /** Starting from a solved puzzle, toggling, typing the new puzzle's answer,
      submitting and toggling again brings back the original clock type, with
      both toggles taking effect. */
  lemma TwoSolvedTogglesRestore(s: ClockState, p1: Puzzle, p2: Puzzle)
    requires s.isPuzzleSolved && Generable(p1)
    ensures var evs := [ToggleButton(p1), Input(AnswerText(p1.answer)), SubmitButton, ToggleButton(p2)];
            && Toggles(s, evs) == 2
            && Run(s, evs).isAnalog == s.isAnalog
            && !Run(s, evs).isPuzzleSolved
  {
    GenerableAnswerSolves(p1);
    SolveBetweenToggles(s, p1, p2);
  }

  lemma SolveBetweenToggles(s: ClockState, p1: Puzzle, p2: Puzzle)
    requires s.isPuzzleSolved && Matches(AnswerText(p1.answer), p1.answer)
    ensures var evs := [ToggleButton(p1), Input(AnswerText(p1.answer)), SubmitButton, ToggleButton(p2)];
            && Toggles(s, evs) == 2
            && Run(s, evs) == Toggled(Toggled(s, p1).(userInput := AnswerText(p1.answer), isPuzzleSolved := true), p2)
  {
    var s1 := Toggled(s, p1);
    var s2 := s1.(userInput := AnswerText(p1.answer));
    var s3 := s2.(isPuzzleSolved := true);
    var r3: seq<Event> := [ToggleButton(p2)];
    var r2 := [SubmitButton] + r3;
    var r1 := [Input(AnswerText(p1.answer))] + r2;
    FourEvents(ToggleButton(p1), Input(AnswerText(p1.answer)), SubmitButton, ToggleButton(p2));
    assert Checked(s2) == s3;
    RunCons(s3, ToggleButton(p2), []);
    RunCons(s2, SubmitButton, r3);
    RunCons(s1, Input(AnswerText(p1.answer)), r2);
    RunCons(s, ToggleButton(p1), r1);
  }

  /** A run of four events, one event at a time. */
  lemma FourEvents(a: Event, b: Event, c: Event, d: Event)
    ensures [a, b, c, d] == [a] + ([b] + ([c] + [d]))
    ensures [d] == [d] + []
  {
  }

  /** Running one event and then the rest. */
  lemma RunCons(s: ClockState, e: Event, rest: seq<Event>)
    ensures Run(s, [e] + rest) == Run(Step(s, e), rest)
    ensures Toggles(s, [e] + rest) == (if e.ToggleButton? && s.isPuzzleSolved then 1 else 0) + Toggles(Step(s, e), rest)
  {
    assert ([e] + rest)[0] == e && ([e] + rest)[1..] == rest;
  }

  // ------------------------------------------------------------- the class

  /** The component instance; each method is one of its handlers. */
  class Session {
    var isAnalog: bool
    var isPuzzleSolved: bool
    var userInput: string
    var puzzle: string
    var puzzleAnswer: Answer

    ghost function State(): ClockState
      reads this
    {
      ClockState(isAnalog, isPuzzleSolved, userInput, puzzle, puzzleAnswer)
    }

    /** Mounting, with the effect that generates the first puzzle. */
    constructor(d: Draws)
      requires ValidDraws(d)
      ensures State() == Mounted(PuzzleFor(d))
    {
      var p := BuildPuzzle(d);
      isAnalog, isPuzzleSolved, userInput := true, false, "";
      puzzle, puzzleAnswer := p.question, p.answer;
    }

    method GeneratePuzzle(d: Draws)
      requires ValidDraws(d)
      modifies this
      ensures State() == Generated(old(State()), PuzzleFor(d))
    {
      var p := BuildPuzzle(d);
      puzzle, puzzleAnswer := p.question, p.answer;
      userInput := "";
      isPuzzleSolved := false;
    }

    /** The input field's onChange. */
    method SetUserInput(text: string)
      modifies this
      ensures State() == old(State()).(userInput := text)
    {
      userInput := text;
    }

    /** checkPuzzle: the typed text is compared with the answer as Matches
        describes, and only a match unlocks the toggle; correct tells which
        alert is shown. */
    method CheckPuzzle() returns (correct: bool)
      modifies this
      ensures correct == Matches(old(userInput), old(puzzleAnswer))
      ensures State() == Checked(old(State()))
    {
      correct := Matches(userInput, puzzleAnswer);
      if correct {
        isPuzzleSolved := true;
      }
    }

    method ToggleClock(d: Draws)
      requires ValidDraws(d)
      modifies this
      ensures State() == Toggled(old(State()), PuzzleFor(d))
    {
      isAnalog := !isAnalog;
      GeneratePuzzle(d);
    }

    /** A click on the toggle button, which is disabled while the puzzle is
        unsolved; fired tells whether toggleClock ran. */
    method PressToggle(d: Draws) returns (fired: bool)
      requires ValidDraws(d)
      modifies this
      ensures fired == old(isPuzzleSolved)
      ensures State() == Step(old(State()), ToggleButton(PuzzleFor(d)))
    {
      fired := isPuzzleSolved;
      if fired {
        ToggleClock(d);
      }
    }
  }
}

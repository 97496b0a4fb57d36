/** The ToggleableClock component: the same lock on the analog/digital toggle,
    with addition puzzles only, checked by parseInt. */
module ToggleableClock {
  import opened JsString
  import opened JsNumber
  import opened Arithmetic

  /** Each operand is Math.floor(Math.random() * 20) + 1. */
  predicate ValidOperand(n: int) {
    1 <= n <= 20
  }

  /** The question `${num1} + ${num2}`. */
  function AdditionQuestion(num1: int, num2: int): string {
    DecimalString(num1) + " + " + DecimalString(num2)
  }

  /** A question with its expected sum. */
  datatype Addition = Addition(question: string, answer: int)

  /** What generatePuzzle draws up for the operands num1 and num2. */
  function AdditionOf(num1: int, num2: int): Addition {
    Addition(AdditionQuestion(num1, num2), num1 + num2)
  }

  /** checkPuzzle's test parseInt(userInput) === puzzleAnswer: NaN never matches. */
  predicate SumMatches(input: string, answer: int) {
    ParseInt(input) == Some(answer)
  }

  /** The component's state, the clock time left out. */
  datatype AdditionState = AdditionState(
    isAnalog: bool,
    isPuzzleSolved: bool,
    userInput: string,
    puzzle: string,
    puzzleAnswer: int)

  /** The state once the component has mounted and its effect has generated
      the first puzzle. */
  function Mounted(p: Addition): AdditionState {
    AdditionState(true, false, "", p.question, p.answer)
  }

  /** generatePuzzle with the new puzzle p. */
  function Generated(s: AdditionState, p: Addition): AdditionState {
    s.(isPuzzleSolved := false, userInput := "", puzzle := p.question, puzzleAnswer := p.answer)
  }

  /** checkPuzzle: a matching input unlocks the toggle, anything else changes nothing. */
  function Checked(s: AdditionState): AdditionState {
    if SumMatches(s.userInput, s.puzzleAnswer) then s.(isPuzzleSolved := true) else s
  }

  /** toggleClock: the clock type flips and a new puzzle is generated. */
  function Toggled(s: AdditionState, p: Addition): AdditionState {
    Generated(s.(isAnalog := !s.isAnalog), p)
  }

  /** What the user can do; the toggle button carries the puzzle
      generatePuzzle draws up after it. */
  datatype Event =
    | Input(text: string)
    | SubmitButton
    | ToggleButton(next: Addition)

  /** One event as the rendered page handles it: the input field and the Submit
      button are only shown while the puzzle is unsolved, and the toggle button
      is disabled until it is solved. */
  function Step(s: AdditionState, e: Event): AdditionState {
    match e
    case Input(text) => if s.isPuzzleSolved then s else s.(userInput := text)
    case SubmitButton => if s.isPuzzleSolved then s else Checked(s)
    case ToggleButton(p) => if s.isPuzzleSolved then Toggled(s, p) else s
  }

  function Run(s: AdditionState, evs: seq<Event>): AdditionState
    decreases |evs|
  {
    if evs == [] then s else Run(Step(s, evs[0]), evs[1..])
  }

  /** How many presses of the toggle button took effect. */
  function Toggles(s: AdditionState, evs: seq<Event>): nat
    decreases |evs|
  {
    if evs == [] then 0
    else (if evs[0].ToggleButton? && s.isPuzzleSolved then 1 else 0) + Toggles(Step(s, evs[0]), evs[1..])
  }

  /** How many submissions solved the puzzle. */
  function Unlocks(s: AdditionState, evs: seq<Event>): nat
    decreases |evs|
  {
    if evs == [] then 0
    else (if evs[0].SubmitButton? && !s.isPuzzleSolved && Checked(s).isPuzzleSolved then 1 else 0)
         + Unlocks(Step(s, evs[0]), evs[1..])
  }

  // --------------------------------------------------------------- answers

  /** The expected sum of two drawn operands lies in 2..40, and parseInt reads
      the question as its first operand. */
  lemma AdditionBounds(num1: int, num2: int)
    requires ValidOperand(num1) && ValidOperand(num2)
    ensures 2 <= AdditionOf(num1, num2).answer <= 40
    ensures ParseInt(AdditionOf(num1, num2).question) == Some(num1)
  {
    var rest := " + " + DecimalString(num2);
    assert AdditionQuestion(num1, num2) == DecimalString(num1) + rest;
    assert DigitValue(rest[0]) == 36;
    ParseIntDecimalString(num1, rest);
  }

  /** After the first operand and " + ", the question reads as the second operand. */
  lemma QuestionShowsSecondOperand(num1: int, num2: int)
    ensures var q, k := AdditionQuestion(num1, num2), |DecimalString(num1)|;
            && |q| > k + 3
            && q[k..k + 3] == " + "
            && ParseInt(q[k + 3..]) == Some(num2)
  {
    assert AdditionQuestion(num1, num2) == DecimalString(num1) + [' ', '+', ' '] + DecimalString(num2);
    SignBetween(DecimalString(num1), '+', DecimalString(num2));
    assert DecimalString(num2) == DecimalString(num2) + [];
    ParseIntDecimalString(num2, []);
  }

  /** A typed integer solves the puzzle exactly when it is the sum. */
  lemma IntegerMatchesIffEqual(k: int, answer: int)
    ensures SumMatches(DecimalString(k), answer) <==> k == answer
  {
    assert DecimalString(k) == DecimalString(k) + [];
    ParseIntDecimalString(k, []);
  }

  /** parseInt stops at the decimal point, so the sum followed by any
      fraction is accepted as well. */
  lemma FractionAccepted(answer: int, fraction: string)
    ensures SumMatches(DecimalString(answer) + "." + fraction, answer)
  {
    assert DecimalString(answer) + "." + fraction == DecimalString(answer) + ("." + fraction);
    ParseIntDecimalString(answer, "." + fraction);
  }

  /** Input without a single digit is NaN to parseInt and never matches. */
  lemma NoDigitNeverMatches(input: string, answer: int)
    requires NoDigits(input)
    ensures !SumMatches(input, answer)
  {
    ParseIntNeedsDigit(input);
  }

  // ------------------------------------------------------------- one step

  /** Checking solves exactly when the input matches; a mismatch changes nothing
      and a match changes nothing but the solved flag. */
  lemma CheckedSolvesIffMatches(s: AdditionState)
    ensures Checked(s).isPuzzleSolved <==> s.isPuzzleSolved || SumMatches(s.userInput, s.puzzleAnswer)
    ensures !SumMatches(s.userInput, s.puzzleAnswer) ==> Checked(s) == s
    ensures Checked(s).(isPuzzleSolved := s.isPuzzleSolved) == s
  {
  }

  /** A press of the toggle button flips the clock type once and relocks when
      the puzzle is solved, and changes nothing when it is not. */
  lemma ToggleButtonGate(s: AdditionState, p: Addition)
    ensures var r := Step(s, ToggleButton(p));
            if s.isPuzzleSolved then
              r.isAnalog == !s.isAnalog && !r.isPuzzleSolved && r.userInput == "" && r.puzzleAnswer == p.answer
            else r == s
  {
  }

  // ---------------------------------------------------------------- runs

  /** What one event does to the clock type and the lock. */
  lemma StepFlags(s: AdditionState, e: Event)
    ensures Step(s, e).isAnalog == (if e.ToggleButton? && s.isPuzzleSolved then !s.isAnalog else s.isAnalog)
    ensures Step(s, e).isPuzzleSolved ==
            (if e.ToggleButton? then false
             else if e.SubmitButton? then s.isPuzzleSolved || Checked(s).isPuzzleSolved
             else s.isPuzzleSolved)
  {
  }

  /** The clock type has flipped exactly when an odd number of toggles took effect. */
  lemma {:induction false} ToggleParity(s: AdditionState, evs: seq<Event>)
    decreases |evs|
    ensures Run(s, evs).isAnalog == (s.isAnalog == (Toggles(s, evs) % 2 == 0))
  {
    if evs != [] {
      var next := Step(s, evs[0]);
      var fired := evs[0].ToggleButton? && s.isPuzzleSolved;
      StepFlags(s, evs[0]);
      ToggleParity(next, evs[1..]);
      var t := Toggles(next, evs[1..]);
      assert Run(s, evs) == Run(next, evs[1..]);
      assert Toggles(s, evs) == (if fired then 1 else 0) + t;
      ParityCons(s.isAnalog, next.isAnalog, fired, t, Run(next, evs[1..]).isAnalog);
    }
  }

  /** Every toggle that takes effect is paid for by a solved puzzle. */
  lemma {:induction false} TogglesNeedSolutions(s: AdditionState, evs: seq<Event>)
    decreases |evs|
    ensures Toggles(s, evs) + (if Run(s, evs).isPuzzleSolved then 1 else 0)
            <= Unlocks(s, evs) + (if s.isPuzzleSolved then 1 else 0)
  {
    if evs != [] {
      StepFlags(s, evs[0]);
      TogglesNeedSolutions(Step(s, evs[0]), evs[1..]);
    }
  }

  /** Starting from a solved puzzle, toggling, typing the new sum, submitting
      and toggling again brings back the original clock type, with both
      toggles taking effect. */
  lemma TwoSolvedTogglesRestore(s: AdditionState, p1: Addition, p2: Addition)
    requires s.isPuzzleSolved
    ensures var evs := [ToggleButton(p1), Input(DecimalString(p1.answer)), SubmitButton, ToggleButton(p2)];
            && Toggles(s, evs) == 2
            && Run(s, evs).isAnalog == s.isAnalog
            && !Run(s, evs).isPuzzleSolved
  {
    IntegerMatchesIffEqual(p1.answer, p1.answer);
    SolveBetweenToggles(s, p1, DecimalString(p1.answer), p2);
  }

  lemma SolveBetweenToggles(s: AdditionState, p1: Addition, text: string, p2: Addition)
    requires s.isPuzzleSolved && SumMatches(text, p1.answer)
    ensures var evs := [ToggleButton(p1), Input(text), SubmitButton, ToggleButton(p2)];
            && Toggles(s, evs) == 2
            && Run(s, evs) == Toggled(Toggled(s, p1).(userInput := text, isPuzzleSolved := true), p2)
  {
    var s1 := Toggled(s, p1);
    var s2 := s1.(userInput := text);
    var s3 := s2.(isPuzzleSolved := true);
    var r3: seq<Event> := [ToggleButton(p2)];
    var r2 := [SubmitButton] + r3;
    var r1 := [Input(text)] + r2;
    FourEvents(ToggleButton(p1), Input(text), SubmitButton, ToggleButton(p2));
    assert Checked(s2) == s3;
    RunCons(s3, ToggleButton(p2), []);
    RunCons(s2, SubmitButton, r3);
    RunCons(s1, Input(text), r2);
    RunCons(s, ToggleButton(p1), r1);
  }

  /** A run of four events, one event at a time. */
  lemma FourEvents(a: Event, b: Event, c: Event, d: Event)
    ensures [a, b, c, d] == [a] + ([b] + ([c] + [d]))
    ensures [d] == [d] + []
  {
  }

  /** Running one event and then the rest. */
  lemma RunCons(s: AdditionState, e: Event, rest: seq<Event>)
    ensures Run(s, [e] + rest) == Run(Step(s, e), rest)
    ensures Toggles(s, [e] + rest) == (if e.ToggleButton? && s.isPuzzleSolved then 1 else 0) + Toggles(Step(s, e), rest)
  {
    assert ([e] + rest)[0] == e && ([e] + rest)[1..] == rest;
  }

  // ------------------------------------------------------------- the class

  /** The component instance; each method is one of its handlers. */
  class AdditionSession {
    var isAnalog: bool
    var isPuzzleSolved: bool
    var userInput: string
    var puzzle: string
    var puzzleAnswer: int

    ghost function State(): AdditionState
      reads this
    {
      AdditionState(isAnalog, isPuzzleSolved, userInput, puzzle, puzzleAnswer)
    }

    /** Mounting, with the effect that generates the first puzzle. */
    constructor(num1: int, num2: int)
      requires ValidOperand(num1) && ValidOperand(num2)
      ensures State() == Mounted(AdditionOf(num1, num2))
    {
      isAnalog, isPuzzleSolved, userInput := true, false, "";
      puzzle := AdditionQuestion(num1, num2);
      puzzleAnswer := num1 + num2;
    }

    method GeneratePuzzle(num1: int, num2: int)
      requires ValidOperand(num1) && ValidOperand(num2)
      modifies this
      ensures State() == Generated(old(State()), AdditionOf(num1, num2))
    {
      puzzle := AdditionQuestion(num1, num2);
      puzzleAnswer := num1 + num2;
      userInput := "";
      isPuzzleSolved := false;
    }

    /** The input field's onChange. */
    method SetUserInput(text: string)
      modifies this
      ensures State() == old(State()).(userInput := text)
    {
      userInput := text;
    }

    /** checkPuzzle; correct tells which alert is shown. */
    method CheckPuzzle() returns (correct: bool)
      modifies this
      ensures correct == SumMatches(old(userInput), old(puzzleAnswer))
      ensures State() == Checked(old(State()))
    {
      correct := ParseInt(userInput) == Some(puzzleAnswer);
      if correct {
        isPuzzleSolved := true;
      }
    }

    method ToggleClock(num1: int, num2: int)
      requires ValidOperand(num1) && ValidOperand(num2)
      modifies this
      ensures State() == Toggled(old(State()), AdditionOf(num1, num2))
    {
      isAnalog := !isAnalog;
      GeneratePuzzle(num1, num2);
    }

    /** A click on the toggle button, which is disabled while the puzzle is
        unsolved; fired tells whether toggleClock ran. */
    method PressToggle(num1: int, num2: int) returns (fired: bool)
      requires ValidOperand(num1) && ValidOperand(num2)
      modifies this
      ensures fired == old(isPuzzleSolved)
      ensures State() == Step(old(State()), ToggleButton(AdditionOf(num1, num2)))
    {
      fired := isPuzzleSolved;
      if fired {
        ToggleClock(num1, num2);
      }
    }
  }
}

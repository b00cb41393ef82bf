/**
 * htoi.old.py: the earlier revision of the converter session. It has no
 * history window; instead every submitted line gets a numbered prompt
 * "<n> htoi > ", the result window is moved to the row under the cursor,
 * clamped to the screen, and the input window is rebuilt when the line
 * number reaches a power of ten and the prompt grows by one column.
 */
module HtoiOld {
  import opened Wrappers
  import Positional
  import Hex
  import Decimal
  import PyText
  import Keys
  import Current = Htoi

  // ---------------------------------------------------------------- converter

  /** hex_to_dec in this revision returns the integer or an error text. */
  datatype Conversion = Converted(value: nat) | InvalidInput

  const InvalidMessage := "invalid input for base 16 conversion"

  function HexToDec(s: string): (r: Conversion)
    ensures r.Converted? <==> Current.IsHex(s)
    ensures r.Converted? ==> r.value == Positional.WeightedSum(Hex.Values(s), 16)
  {
    match Hex.Parse(s)
    case Some(v) => Converted(v)
    case None => InvalidInput
  }

  /** hex_to_dec_str: str() of either result. */
  function HexToDecStr(s: string): (r: string)
    ensures !Current.IsHex(s) ==> r == InvalidMessage
    ensures Current.IsHex(s) ==> Decimal.IsCanonicalDec(r) && Decimal.DecVal(r) == Hex.HexVal(s)
  {
    match HexToDec(s)
    case Converted(v) =>
      Decimal.NatToDecimalRoundTrip(v);
      Decimal.NatToDecimal(v)
    case InvalidInput => InvalidMessage
  }

  // ------------------------------------------------------------------- layout

  function Min(a: int, b: int): int { if a < b then a else b }
  function Max(a: int, b: int): int { if a < b then b else a }

  /**
   * result_window_move: the row for the result window. It is the row under
   * the cursor clamped into the screen, never negative, and inside a screen
   * of at least one row.
   */
  function ResultRow(cursorY: nat, maxY: int): (row: nat)
    ensures row == Min(cursorY + 1, Max(maxY - 1, 0))
    ensures maxY >= 1 ==> row < maxY
  {
    if cursorY + 1 < maxY then cursorY + 1
    else
      var row := maxY - 1;
      if row < 0 then 0 else row
  }

  /** The integer form of log10(n).is_integer(): n is 1, 10, 100, ... */
  predicate IsPowerOfTen(n: int)
    decreases if n < 0 then 0 else n
  {
    n == 1 || (n >= 10 && n % 10 == 0 && IsPowerOfTen(n / 10))
  }

  /** What manage_input_subwin does for a line count: nothing, rebuild the input window, or fail in log10(0). */
  datatype SubwinAction = Keep | Rebuild | MathDomainError

  function InputSubwinAction(lineCount: int): (a: SubwinAction)
    ensures a == Rebuild <==> lineCount > 0 && IsPowerOfTen(lineCount)
    ensures a == MathDomainError <==> lineCount == 0
  {
    if lineCount < 0 then Keep
    else if lineCount == 0 then MathDomainError
    else if IsPowerOfTen(lineCount) then Rebuild
    else Keep
  }

  /** Every power of ten is one. */
  lemma {:induction false} PowIsPowerOfTen(k: nat)
    ensures IsPowerOfTen(Positional.Pow(10, k))
  {
    if k > 0 {
      PowIsPowerOfTen(k - 1);
      var p := Positional.Pow(10, k - 1);
      assert Positional.Pow(10, k) == p * 10;
      Positional.DivModOf(p, 0, 10);
    }
  }

  /** And nothing else is: a power of ten is 10^(w-1) where w is its number of digits. */
  lemma {:induction false} PowerOfTenIsPow(n: nat)
    requires n >= 1
    ensures IsPowerOfTen(n) <==> n == Positional.Pow(10, |Positional.Digits(n, 10)| - 1)
    decreases n
  {
    Positional.DivBasics(n, 10);
    if n >= 10 {
      var q, r := n / 10, n % 10;
      PowerOfTenIsPow(q);
      var w := |Positional.Digits(q, 10)|;
      assert |Positional.Digits(n, 10)| == w + 1;
      var p := Positional.Pow(10, w - 1);
      assert Positional.Pow(10, w) == p * 10;
      if n == p * 10 {
        Positional.DivModOf(p, 0, 10);
      }
      if IsPowerOfTen(n) {
        assert q == p;
      }
    }
  }

  const PromptSuffix := "htoi > "

  /** The numbered prompt "<n> htoi > ". */
  function Prompt(index: int): string
  {
    Decimal.IntToDecimal(index) + " " + PromptSuffix
  }

  /** The number of decimal digits goes up by one exactly when n reaches a power of ten (n >= 2). */
  lemma DigitsWidenAtPowersOfTen(n: nat)
    requires n >= 2
    ensures |Positional.Digits(n, 10)| == |Positional.Digits(n - 1, 10)| + (if IsPowerOfTen(n) then 1 else 0)
  {
    var w := |Positional.Digits(n, 10)|;
    Positional.DigitsWidth(n, 10);
    PowerOfTenIsPow(n);
    var p := Positional.Pow(10, w - 1);
    if n == p {
      assert w >= 2;
      var p2 := Positional.Pow(10, w - 2);
      assert p == 10 * p2;
      Positional.WidthFromBounds(n - 1, w - 2, 10);
      assert IsPowerOfTen(n) && |Positional.Digits(n - 1, 10)| == w - 1;
    } else {
      Positional.WidthFromBounds(n - 1, w - 1, 10);
      assert !IsPowerOfTen(n) && |Positional.Digits(n - 1, 10)| == w;
    }
  }

  /** The prompt of a non-negative line number, written out. */
  lemma PromptText(n: nat)
    ensures Prompt(n) == Decimal.NatToDecimal(n) + " htoi > "
  {
    var d := Decimal.NatToDecimal(n);
    assert Decimal.IntToDecimal(n) == d;
    assert (d + " ") + PromptSuffix == d + (" " + PromptSuffix);
  }

  /**
   * The prompt grows by one column exactly when the line number reaches a
   * power of ten (from 2 on; at 1 the window is rebuilt though "0" and "1"
   * are equally wide).
   */
  lemma PromptWidensAtPowersOfTen(n: nat)
    requires n >= 2
    ensures |Prompt(n)| == |Prompt(n - 1)| + (if IsPowerOfTen(n) then 1 else 0)
  {
    DigitsWidenAtPowersOfTen(n);
    assert |Prompt(n)| == |Positional.Digits(n, 10)| + 1 + |PromptSuffix|;
    assert |Prompt(n - 1)| == |Positional.Digits(n - 1, 10)| + 1 + |PromptSuffix|;
  }

  // ------------------------------------------------------------------ session

  datatype SessionState = SessionState(
    currentInput: string,
    lastInput: string,
    error: string,
    inputLineIndex: int,
    prompt: string,
    mainCursorY: nat,
    resultWindowPosY: nat,
    feedback: string,
    inputWindowGeneration: nat)

  /** __init__ followed by main's setup: the line index starts at the row after the welcome text. */
  function Start(cursorYAfterWelcome: nat): (s: SessionState)
    ensures s.inputLineIndex == cursorYAfterWelcome && s.prompt == Decimal.NatToDecimal(cursorYAfterWelcome) + " htoi > "
    ensures s.currentInput == "" && s.lastInput == "" && s.error == ""
  {
    var index := 0 + cursorYAfterWelcome;
    SessionState("", "", "", index, Prompt(index), cursorYAfterWelcome, 0, "", 0)
  }

  predicate Invariant(s: SessionState)
  {
    && Hex.IsHexString(s.currentInput) && Hex.IsHexString(s.lastInput)
    && s.inputLineIndex >= 0 && s.prompt == Prompt(s.inputLineIndex)
  }

  /**
   * How one iteration ends; the last three are exceptions that leave main.
   * NullCharacterError is the ValueError addstr raises on the rejection
   * message of key 0, which holds a NUL character.
   */
  datatype Outcome = Continue | Quit | ChrValueError(code: int) | Log10ValueError | NullCharacterError(code: int)

  datatype StepResult = StepResult(state: SessionState, outcome: Outcome)

  /** Up arrow: the last input replaces the buffer, even when it is empty. */
  function RecallLast(s: SessionState, maxY: int): SessionState
  {
    s.(currentInput := s.lastInput, resultWindowPosY := ResultRow(s.mainCursorY, maxY), feedback := "")
  }

  function EraseLast(s: SessionState, maxY: int): SessionState
  {
    if |s.currentInput| == 0 then s
    else
      var rest := s.currentInput[..|s.currentInput| - 1];
      s.(currentInput := rest, resultWindowPosY := ResultRow(s.mainCursorY, maxY),
         feedback := if |rest| > 0 then HexToDecStr(rest) else "")
  }

  /** Enter: dismiss the error, ignore an idle press, or submit and number the next line. */
  function Enter(s: SessionState): StepResult
  {
    if |s.error| > 0 then StepResult(s.(error := "", feedback := ""), Continue)
    else if PyText.Strip(s.currentInput) == "" then StepResult(s, Continue)
    else
      var index := s.inputLineIndex + 1;
      var action := InputSubwinAction(index);
      var next := s.(inputLineIndex := index, prompt := Prompt(index), lastInput := s.currentInput, currentInput := "",
                     inputWindowGeneration := if action == Rebuild then s.inputWindowGeneration + 1 else s.inputWindowGeneration);
      StepResult(next, if action == MathDomainError then Log10ValueError else Continue)
  }

  /**
   * Any other key, as chr(code). A rejection wipes the result window and
   * stores the message before addstr writes it, so a NUL leaves main with
   * the error recorded and the result window empty.
   */
  function Keystroke(s: SessionState, code: int, maxY: int): StepResult
    requires 0 <= code <= Keys.KeyMax
  {
    var c := code as char;
    var row := ResultRow(s.mainCursorY, maxY);
    if !Current.IsHex([c]) then
      var message := Current.RejectMessage(code, c);
      if c == '\0' then StepResult(s.(resultWindowPosY := row, error := message, feedback := ""), NullCharacterError(code))
      else StepResult(s.(resultWindowPosY := row, error := message, feedback := message), Continue)
    else
      StepResult(s.(error := "", currentInput := s.currentInput + [c], resultWindowPosY := row,
                    feedback := HexToDecStr(s.currentInput + [c])), Continue)
  }

  /**
   * One iteration of the loop in Htoi.main: the main window's cursor row is
   * read first (cursorY), then getch returns code; maxY is the screen
   * height result_window_move reads.
   */
  function Transition(s: SessionState, code: int, cursorY: nat, maxY: int): StepResult
    requires Keys.IsGetchResult(code)
  {
    var cur := s.(mainCursorY := cursorY);
    match Keys.Classify(code)
    case Quit => StepResult(cur, Quit)
    case Resize => StepResult(cur, Continue)
    case Recall => StepResult(RecallLast(cur, maxY), Continue)
    case Erase => StepResult(EraseLast(cur, maxY), Continue)
    case Submit => Enter(cur)
    case Typed(k) => if k < 0 then StepResult(cur, ChrValueError(k)) else Keystroke(cur, k, maxY)
  }

  datatype KeyEvent = KeyEvent(code: int, cursorY: nat, maxY: int)

  predicate AreGetchResults(events: seq<KeyEvent>)
  {
    forall k :: 0 <= k < |events| ==> Keys.IsGetchResult(events[k].code)
  }

  function Replay(s: SessionState, events: seq<KeyEvent>): StepResult
    requires AreGetchResults(events)
    decreases |events|
  {
    if events == [] then StepResult(s, Continue)
    else
      var step := Transition(s, events[0].code, events[0].cursorY, events[0].maxY);
      if step.outcome.Continue? then Replay(step.state, events[1..]) else step
  }

  // ------------------------------------------------------ session properties

  lemma RecallKeepsInvariant(s: SessionState, maxY: int)
    requires Invariant(s)
    ensures Invariant(RecallLast(s, maxY))
  {
  }

  lemma EraseKeepsInvariant(s: SessionState, maxY: int)
    requires Invariant(s)
    ensures Invariant(EraseLast(s, maxY))
  {
    if s.currentInput != "" {
      assert Hex.IsHexString(s.currentInput[..|s.currentInput| - 1]);
    }
  }

  /** The line index only grows, so log10 never sees 0. */
  lemma EnterKeepsInvariant(s: SessionState)
    requires Invariant(s)
    ensures Invariant(Enter(s).state) && Enter(s).outcome == Continue
  {
  }

  lemma KeystrokeKeepsInvariant(s: SessionState, code: int, maxY: int)
    requires Invariant(s) && 0 <= code <= Keys.KeyMax
    ensures Invariant(Keystroke(s, code, maxY).state)
  {
    var c := code as char;
    if Current.IsHex([c]) {
      assert Hex.IsHexDigit(c);
      assert Hex.IsHexString(s.currentInput + [c]);
    }
  }

  /** Every iteration keeps the buffer pure hex and the prompt numbered by the line index, and never reaches log10(0). */
  lemma TransitionKeepsInvariant(s: SessionState, code: int, cursorY: nat, maxY: int)
    requires Invariant(s) && Keys.IsGetchResult(code)
    ensures Invariant(Transition(s, code, cursorY, maxY).state)
    ensures Transition(s, code, cursorY, maxY).outcome != Log10ValueError
  {
    var t := s.(mainCursorY := cursorY);
    match Keys.Classify(code)
    case Quit =>
    case Resize =>
    case Recall =>
      RecallKeepsInvariant(t, maxY);
    case Erase =>
      EraseKeepsInvariant(t, maxY);
    case Submit =>
      EnterKeepsInvariant(t);
    case Typed(k) =>
      if k >= 0 {
        KeystrokeKeepsInvariant(t, k, maxY);
      }
  }

  /** A submit numbers the next line, remembers the unstripped buffer and empties it; the input window is rebuilt exactly at powers of ten. */
  lemma Submit(s: SessionState, code: int, cursorY: nat, maxY: int)
    requires Invariant(s)
    requires code == Keys.CursesKeyEnter || code == Keys.KeyEnter
    requires s.error == "" && s.currentInput != ""
    ensures var r := Transition(s, code, cursorY, maxY);
      && r.outcome == Continue
      && r.state.inputLineIndex == s.inputLineIndex + 1
      && r.state.prompt == Decimal.NatToDecimal(s.inputLineIndex + 1) + " htoi > "
      && r.state.lastInput == s.currentInput && r.state.currentInput == ""
      && r.state.inputWindowGeneration
         == s.inputWindowGeneration + (if IsPowerOfTen(s.inputLineIndex + 1) then 1 else 0)
      && r.state.error == "" && r.state.feedback == s.feedback
      && r.state.resultWindowPosY == s.resultWindowPosY
      && r.state == s.(mainCursorY := cursorY, inputLineIndex := s.inputLineIndex + 1,
                       prompt := Prompt(s.inputLineIndex + 1), lastInput := s.currentInput,
                       currentInput := "", inputWindowGeneration := r.state.inputWindowGeneration)
  {
    var t := s.(mainCursorY := cursorY);
    EnterDispatch(s, code, cursorY, maxY);
    assert PyText.Strip(t.currentInput) == t.currentInput by {
      PyText.StripWithoutSpace(t.currentInput);
    }
    PromptText(s.inputLineIndex + 1);
  }

  lemma EnterDispatch(s: SessionState, code: int, cursorY: nat, maxY: int)
    requires code == Keys.CursesKeyEnter || code == Keys.KeyEnter
    ensures Transition(s, code, cursorY, maxY) == Enter(s.(mainCursorY := cursorY))
  {
  }

  /**
   * Dismissing an error clears it and wipes the result window; an idle Enter
   * changes nothing. Either way the line index, prompt and buffers stay.
   */
  lemma DismissOrIdleEnter(s: SessionState, code: int, cursorY: nat, maxY: int)
    requires Invariant(s)
    requires code == Keys.CursesKeyEnter || code == Keys.KeyEnter
    requires s.error != "" || s.currentInput == ""
    ensures var r := Transition(s, code, cursorY, maxY);
      && r.outcome == Continue
      && r.state.inputLineIndex == s.inputLineIndex && r.state.prompt == s.prompt
      && r.state.currentInput == s.currentInput && r.state.lastInput == s.lastInput
      && r.state.error == ""
      && r.state.feedback == (if s.error != "" then "" else s.feedback)
      && r.state == s.(mainCursorY := cursorY, error := "", feedback := r.state.feedback)
  {
  }

  /** Up arrow copies the last input into the buffer unconditionally and wipes the result window; nothing else changes. */
  lemma UpArrow(s: SessionState, cursorY: nat, maxY: int)
    ensures var r := Transition(s, Keys.KeyUp, cursorY, maxY);
      && r.outcome == Continue
      && r.state.currentInput == s.lastInput
      && r.state.feedback == ""
      && r.state.resultWindowPosY == Min(cursorY + 1, Max(maxY - 1, 0))
      && r.state == s.(mainCursorY := cursorY, currentInput := s.lastInput,
                       resultWindowPosY := r.state.resultWindowPosY, feedback := "")
  {
  }

  /**
   * Backspace on an empty buffer only records the cursor row; otherwise
   * exactly the last character goes, the result window moves under the
   * cursor and shows the rest's value (or nothing once the buffer is empty),
   * and nothing else changes.
   */
  lemma Backspace(s: SessionState, code: int, cursorY: nat, maxY: int)
    requires Invariant(s)
    requires code == Keys.CursesKeyBackspace || code == Keys.KeyBackspace || code == Keys.KeyDelete
    ensures var r := Transition(s, code, cursorY, maxY);
      && r.outcome == Continue
      && (s.currentInput == "" ==> r.state == s.(mainCursorY := cursorY))
      && (s.currentInput != "" ==>
            && s.currentInput == r.state.currentInput + [s.currentInput[|s.currentInput| - 1]]
            && r.state.resultWindowPosY == Min(cursorY + 1, Max(maxY - 1, 0))
            && (r.state.currentInput == "" ==> r.state.feedback == "")
            && (r.state.currentInput != "" ==>
                  r.state.feedback == Decimal.NatToDecimal(Hex.HexVal(r.state.currentInput)))
            && r.state == s.(mainCursorY := cursorY, currentInput := r.state.currentInput,
                             resultWindowPosY := r.state.resultWindowPosY, feedback := r.state.feedback))
  {
    if s.currentInput != "" {
      var rest := s.currentInput[..|s.currentInput| - 1];
      assert s.currentInput == rest + [s.currentInput[|s.currentInput| - 1]];
    }
  }

  /**
   * A typed character moves the result window under the cursor. A non-hex
   * one sets the error message and shows it, except key 0, whose NUL makes
   * addstr raise after the window was wiped; a hex one clears the error, is
   * appended, and the new buffer's conversion is shown. Nothing else changes.
   */
  lemma TypedCharacter(s: SessionState, code: int, cursorY: nat, maxY: int)
    requires 0 <= code <= Keys.KeyMax && Keys.Classify(code) == Keys.Typed(code)
    ensures var r := Transition(s, code, cursorY, maxY);
      && r.outcome == (if code == 0 then NullCharacterError(0) else Continue)
      && r.state.resultWindowPosY == Min(cursorY + 1, Max(maxY - 1, 0))
      && r.state == s.(mainCursorY := cursorY, currentInput := r.state.currentInput, error := r.state.error,
                       resultWindowPosY := r.state.resultWindowPosY, feedback := r.state.feedback)
      && (!Hex.IsHexDigit(code as char) ==>
            && r.state.error == Current.RejectMessage(code, code as char)
            && r.state.feedback == (if code == 0 then "" else r.state.error)
            && r.state.currentInput == s.currentInput)
      && (Hex.IsHexDigit(code as char) ==>
            && r.state.error == "" && r.state.currentInput == s.currentInput + [code as char]
            && r.state.feedback == HexToDecStr(r.state.currentInput))
  {
  }

  /** Over any key stream the invariant holds and the line index never goes down. */
  lemma {:induction false} ReplayKeepsInvariant(s: SessionState, events: seq<KeyEvent>)
    requires Invariant(s) && AreGetchResults(events)
    ensures var r := Replay(s, events);
      Invariant(r.state) && r.state.inputLineIndex >= s.inputLineIndex && r.outcome != Log10ValueError
    decreases |events|
  {
    if events != [] {
      var e := events[0];
      TransitionKeepsInvariant(s, e.code, e.cursorY, e.maxY);
      var step := Transition(s, e.code, e.cursorY, e.maxY);
      assert step.state.inputLineIndex >= s.inputLineIndex;
      if step.outcome.Continue? {
        assert AreGetchResults(events[1..]);
        ReplayKeepsInvariant(step.state, events[1..]);
      }
    }
  }

  // ---------------------------------------------------------------- the class

  class Htoi {
    var currentInput: string
    var lastInput: string
    var error: string
    var inputLineIndex: int
    var prompt: string
    var mainCursorY: nat
    var resultWindowPosY: nat
    var feedback: string
    var inputWindowGeneration: nat

    function State(): SessionState
      reads this
    {
      SessionState(currentInput, lastInput, error, inputLineIndex, prompt, mainCursorY,
                   resultWindowPosY, feedback, inputWindowGeneration)
    }

    ghost predicate Valid()
      reads this
    {
      Invariant(State())
    }

    /** __init__ and the part of main before the loop. */
    constructor (cursorYAfterWelcome: nat)
      ensures State() == Start(cursorYAfterWelcome) && Valid()
    {
      currentInput, lastInput, error := "", "", "";
      resultWindowPosY := 0;
      feedback := "";
      inputWindowGeneration := 0;
      mainCursorY := cursorYAfterWelcome;
      var index := 0 + cursorYAfterWelcome;
      inputLineIndex := index;
      prompt := Prompt(index);
    }

    method ResultWindowMove(maxY: int)
      modifies this
      ensures resultWindowPosY == ResultRow(mainCursorY, maxY)
      ensures State() == old(State()).(resultWindowPosY := resultWindowPosY)
    {
      if mainCursorY + 1 < maxY {
        resultWindowPosY := mainCursorY + 1;
      } else {
        var row := maxY - 1;
        if row < 0 {
          row := 0;
        }
        resultWindowPosY := row;
      }
    }

    method ManageInputSubwin(lineCount: int) returns (domainError: bool)
      modifies this
      ensures domainError <==> InputSubwinAction(lineCount) == MathDomainError
      ensures State() == old(State()).(inputWindowGeneration :=
        if InputSubwinAction(lineCount) == Rebuild then old(inputWindowGeneration) + 1
        else old(inputWindowGeneration))
    {
      if lineCount < 0 {
        return false;
      }
      if lineCount == 0 {
        return true;
      }
      if IsPowerOfTen(lineCount) {
        inputWindowGeneration := inputWindowGeneration + 1;
      }
      return false;
    }

    /** The up-arrow branch. */
    method RecallKey(maxY: int)
      modifies this
      ensures State() == RecallLast(old(State()), maxY)
    {
      currentInput := lastInput;
      ResultWindowMove(maxY);
      feedback := "";
    }

    /** The backspace branch. */
    method EraseKey(maxY: int)
      modifies this
      ensures State() == EraseLast(old(State()), maxY)
    {
      if |currentInput| == 0 {
        return;
      }
      currentInput := currentInput[..|currentInput| - 1];
      feedback := "";
      ResultWindowMove(maxY);
      if |currentInput| > 0 {
        feedback := HexToDecStr(currentInput);
      }
    }

    /** The part of the enter branch that submits the buffer and numbers the next line. */
    method SubmitLine() returns (outcome: Outcome)
      modifies this
      ensures var index := old(inputLineIndex) + 1;
        && State() == old(State()).(inputLineIndex := index, prompt := Prompt(index),
                                    lastInput := old(currentInput), currentInput := "",
                                    inputWindowGeneration := inputWindowGeneration)
        && inputWindowGeneration == old(inputWindowGeneration) + (if InputSubwinAction(index) == Rebuild then 1 else 0)
        && (outcome == if InputSubwinAction(index) == MathDomainError then Log10ValueError else Continue)
    {
      var index := inputLineIndex + 1;
      inputLineIndex := index;
      prompt := Prompt(index);
      lastInput := currentInput;
      currentInput := "";
      var domainError := ManageInputSubwin(index);
      outcome := if domainError then Log10ValueError else Continue;
    }

    /** The enter branch. */
    method EnterKey() returns (outcome: Outcome)
      modifies this
      ensures StepResult(State(), outcome) == Enter(old(State()))
    {
      if |error| > 0 {
        error := "";
        feedback := "";
        return Continue;
      }
      if PyText.Strip(currentInput) == "" {
        return Continue;
      }
      outcome := SubmitLine();
    }

    /** The branch for any other key: a character to validate and append. */
    method CharacterKey(code: int, maxY: int) returns (outcome: Outcome)
      requires 0 <= code <= Keys.KeyMax
      modifies this
      ensures StepResult(State(), outcome) == Keystroke(old(State()), code, maxY)
    {
      var c := code as char;
      if !Current.IsHex([c]) {
        ResultWindowMove(maxY);
        feedback := "";
        error := Current.RejectMessage(code, c);
        if c == '\0' {
          return NullCharacterError(code);
        }
        feedback := error;
        return Continue;
      }
      error := "";
      currentInput := currentInput + [c];
      ResultWindowMove(maxY);
      feedback := HexToDecStr(currentInput);
      outcome := Continue;
    }

    method Step(code: int, cursorY: nat, maxY: int) returns (outcome: Outcome)
      requires Valid() && Keys.IsGetchResult(code)
      modifies this
      ensures Valid()
      ensures StepResult(State(), outcome) == Transition(old(State()), code, cursorY, maxY)
    {
      TransitionKeepsInvariant(State(), code, cursorY, maxY);
      mainCursorY := cursorY;
      match Keys.Classify(code)
      case Quit =>
        outcome := Quit;
      case Resize =>
        outcome := Continue;
      case Recall =>
        RecallKey(maxY);
        outcome := Continue;
      case Erase =>
        EraseKey(maxY);
        outcome := Continue;
      case Submit =>
        outcome := EnterKey();
      case Typed(k) =>
        if k < 0 {
          outcome := ChrValueError(k);
        } else {
          outcome := CharacterKey(k, maxY);
        }
    }

    /** The loop of main over a finite stream of key events; handled counts the events consumed. */
    method Run(events: seq<KeyEvent>) returns (outcome: Outcome, handled: nat)
      requires Valid() && AreGetchResults(events)
      modifies this
      ensures Valid() && handled <= |events|
      ensures StepResult(State(), outcome) == Replay(old(State()), events)
      ensures outcome == Continue ==> handled == |events|
      ensures outcome != Continue ==> handled > 0
    {
      outcome, handled := Continue, 0;
      while handled < |events| && outcome == Continue
        invariant Valid() && handled <= |events|
        invariant outcome == Continue ==> Replay(old(State()), events) == Replay(State(), events[handled..])
        invariant outcome != Continue ==> StepResult(State(), outcome) == Replay(old(State()), events) && handled > 0
        decreases |events| - handled
      {
        assert events[handled..][1..] == events[handled + 1..];
        outcome := Step(events[handled].code, events[handled].cursorY, events[handled].maxY);
        handled := handled + 1;
        assert events[handled - 1..][0] == events[handled - 1];
      }
      if outcome == Continue {
        assert events[handled..] == [];
      }
    }
  }
}

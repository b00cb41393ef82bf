/**
 * htoi.py: the hex-to-decimal converter and its interactive session.
 *
 * The session keeps the text being typed (currentInput), the last submitted
 * text (lastInput), the pending rejection message (error) and the
 * conversion history, newest first. The loop reads one key per iteration,
 * checks the window height, and then dispatches on the key. The feedback
 * field holds the text last written to the feedback window; every other
 * drawing call changes nothing the session reads back.
 */
module Htoi {
  import opened Wrappers
  import Positional
  import Hex
  import Decimal
  import PyText
  import Keys

  // ---------------------------------------------------------------- converter

  /** is_hex: whether int(s, 16) succeeds. */
  function IsHex(s: string): (r: bool)
    ensures r <==> |s| > 0 && Hex.IsHexString(s)
  {
    Hex.Parse(s).Some?
  }

  /** On one character, is_hex accepts exactly the 22 hexadecimal digit characters. */
  lemma IsHexOfOneChar(c: char)
    ensures IsHex([c]) <==> c in "0123456789abcdefABCDEF"
  {
    var alphabet := "0123456789abcdefABCDEF";
    if '0' <= c <= '9' {
      assert alphabet[c as int - '0' as int] == c;
    } else if 'a' <= c <= 'f' {
      assert alphabet[c as int - 'a' as int + 10] == c;
    } else if 'A' <= c <= 'F' {
      assert alphabet[c as int - 'A' as int + 16] == c;
    }
  }

  /** hex_to_dec: the base-16 value of s, or -1 when int(s, 16) raises ValueError. */
  function HexToDec(s: string): (r: int)
    ensures r >= -1
    ensures r == -1 <==> !IsHex(s)
    ensures IsHex(s) ==> r == Positional.WeightedSum(Hex.Values(s), 16)
  {
    match Hex.Parse(s)
    case Some(v) => v
    case None => -1
  }

  /** hex_to_dec_str: str() of hex_to_dec. */
  function HexToDecStr(s: string): (r: string)
    ensures !IsHex(s) ==> r == "-1"
    ensures IsHex(s) ==> Decimal.IsCanonicalDec(r) && Decimal.DecVal(r) == Hex.HexVal(s)
  {
    if IsHex(s) then
      Decimal.NatToDecimalRoundTrip(Hex.HexVal(s));
      Decimal.IntToDecimal(HexToDec(s))
    else
      Decimal.IntToDecimal(HexToDec(s))
  }

  lemma HexStringIsHex(s: string)
    requires Hex.IsHexString(s) && s != ""
    ensures IsHex(s) && HexToDecStr(s) == Decimal.NatToDecimal(Hex.HexVal(s))
  {
  }

  // ------------------------------------------------------- window height guard

  const FeedbackWindowStartY := 1
  const HistoryWindowStartY := 2
  /** max(feedback_window_start_y, history_window_start_y) */
  const MinimumRequiredY := if FeedbackWindowStartY > HistoryWindowStartY then FeedbackWindowStartY else HistoryWindowStartY

  /** WindowTooSmallException(window_size, required_size). */
  datatype WindowTooSmall = WindowTooSmall(windowSize: int, requiredSize: int)

  /** The text WindowTooSmallException passes to Exception. */
  function TooSmallMessage(e: WindowTooSmall): string
  {
    "window size " + Decimal.IntToDecimal(e.windowSize) + " is under required height of "
      + Decimal.IntToDecimal(e.requiredSize) + " [0 indexed]"
  }

  /**
   * The height check: it raises when the last row index of a window maxY
   * rows high is below the history window's start row, that is, when the
   * prompt, feedback and history rows do not fit. The exception reports that
   * last row index, which is then under the required one.
   */
  function HeightGuard(maxY: int): (r: Option<WindowTooSmall>)
    ensures r.Some? <==> maxY < 3
    ensures r.Some? ==> r.value.requiredSize == MinimumRequiredY && r.value.windowSize == maxY - 1
    ensures r.Some? ==> r.value.windowSize < r.value.requiredSize
  {
    if maxY - 1 < MinimumRequiredY then Some(WindowTooSmall(maxY - 1, MinimumRequiredY)) else None
  }

  /** The check inside the loop as written: it reports the height the window had at startup. */
  function LoopGuardAsWritten(startingMaxY: int, maxY: int): (r: Option<WindowTooSmall>)
    ensures r.Some? <==> HeightGuard(maxY).Some?
  {
    if maxY - 1 < MinimumRequiredY then Some(WindowTooSmall(startingMaxY - 1, MinimumRequiredY)) else None
  }

  /**
   * Once startup has passed the check, the exception raised in the loop
   * claims a size that is not under the required height, and it differs
   * from what the check reports for the current height.
   */
  lemma LoopGuardAsWrittenMisreports(startingMaxY: int, maxY: int)
    requires HeightGuard(startingMaxY).None? && LoopGuardAsWritten(startingMaxY, maxY).Some?
    ensures LoopGuardAsWritten(startingMaxY, maxY).value.windowSize >= MinimumRequiredY
    ensures LoopGuardAsWritten(startingMaxY, maxY) != HeightGuard(maxY)
  {
  }

  /** A window opened 10 rows high and shrunk to 2: "window size 9 is under required height of 2". */
  lemma LoopGuardShrinkExample()
    ensures LoopGuardAsWritten(10, 2) == Some(WindowTooSmall(9, 2))
    ensures HeightGuard(2) == Some(WindowTooSmall(1, 2))
  {
  }

  /** The message of that exception names 9 rows, where the current height has 1. */
  lemma LoopGuardShrinkMessage()
    ensures TooSmallMessage(LoopGuardAsWritten(10, 2).value)
      == "window size 9 is under required height of 2 [0 indexed]"
  {
    SmallDecimals();
    var e := LoopGuardAsWritten(10, 2).value;
    assert e.windowSize == 9 && e.requiredSize == 2;
  }

  /** The corrected check on the same window reports its current last row. */
  lemma HeightGuardShrinkMessage()
    ensures TooSmallMessage(HeightGuard(2).value)
      == "window size 1 is under required height of 2 [0 indexed]"
  {
    SmallDecimals();
    var e := HeightGuard(2).value;
    assert e.windowSize == 1 && e.requiredSize == 2;
  }

  lemma SmallDecimals()
    ensures Decimal.IntToDecimal(1) == "1" && Decimal.IntToDecimal(2) == "2" && Decimal.IntToDecimal(9) == "9"
  {
    Decimal.NatToDecimalDigit('1');
    Decimal.NatToDecimalDigit('2');
    Decimal.NatToDecimalDigit('9');
  }

  // ------------------------------------------------------------------ session

  datatype SessionState = SessionState(
    currentInput: string,
    lastInput: string,
    error: string,
    history: seq<string>,
    feedback: string)

  const Initial := SessionState("", "", "", [], "")

  /** Only hex digits ever reach the buffer, so only they can be submitted. */
  predicate Invariant(s: SessionState)
  {
    Hex.IsHexString(s.currentInput) && Hex.IsHexString(s.lastInput)
  }

  /**
   * How one loop iteration ends: next iteration, return, or an exception out
   * of main. NullCharacterError is the ValueError curses' addstr raises on
   * text holding a NUL character, which the rejection message for key 0 does.
   */
  datatype Outcome = Continue | Quit | TooSmall(e: WindowTooSmall) | ChrValueError(code: int) | NullCharacterError(code: int)

  datatype StepResult = StepResult(state: SessionState, outcome: Outcome)

  /** The rejection message names the key: its ord reads back from the text, and it ends in the character. */
  function RejectMessage(code: int, c: char): (r: string)
    ensures |r| >= 52 && Decimal.ParseInt(r[44..|r| - 7]) == Some(code) && r[|r| - 1] == c
  {
    var ord := Decimal.IntToDecimal(code);
    var r := "input not valid hexadecimal character. ord: " + ord + " chr: " + [c];
    assert r[44..|r| - 7] == ord;
    Decimal.ParseIntRoundTrip(code);
    r
  }

  /** The history line: the input, " => ", then its decimal value, or -1 when it is not hex. */
  function HistoryRecord(input: string): (r: string)
    ensures IsHex(input) ==> r == input + " => " + Decimal.NatToDecimal(Hex.HexVal(input))
    ensures !IsHex(input) ==> r == input + " => -1"
  {
    input + " => " + HexToDecStr(input)
  }

  /** Up arrow. */
  function RecallLast(s: SessionState): SessionState
  {
    if s.lastInput == "" then s.(feedback := "")
    else s.(currentInput := s.lastInput, feedback := HexToDecStr(s.lastInput))
  }

  /** Backspace or delete. */
  function EraseLast(s: SessionState): SessionState
  {
    if |s.currentInput| == 0 then s
    else
      var rest := s.currentInput[..|s.currentInput| - 1];
      s.(currentInput := rest, feedback := if |rest| > 0 then HexToDecStr(rest) else "")
  }

  /** Enter: dismiss a pending error, ignore an idle press, or submit. */
  function Enter(s: SessionState): SessionState
  {
    if |s.error| > 0 then s.(error := "", feedback := "")
    else
      var stripped := PyText.Strip(s.currentInput);
      if stripped == "" then s.(currentInput := stripped)
      else s.(history := [HistoryRecord(stripped)] + s.history, feedback := "",
              lastInput := stripped, currentInput := "")
  }

  /**
   * Any other key, as the character chr(code). A rejected key's message is
   * stored and the feedback window erased before addstr writes it, so a NUL
   * leaves main with the error recorded and the feedback empty.
   */
  function Keystroke(s: SessionState, code: int): StepResult
    requires 0 <= code <= Keys.KeyMax
  {
    var c := code as char;
    if !IsHex([c]) then
      var message := RejectMessage(code, c);
      if c == '\0' then StepResult(s.(error := message, feedback := ""), NullCharacterError(code))
      else StepResult(s.(error := message, feedback := message), Continue)
    else StepResult(s.(error := "", currentInput := s.currentInput + [c], feedback := HexToDecStr(s.currentInput + [c])), Continue)
  }

  /**
   * One iteration of the loop in Htoi.main, after getch has returned code:
   * the height check as written (it reports startingMaxY, the height main
   * read before the loop), then the dispatch.
   */
  function Transition(s: SessionState, code: int, startingMaxY: int, maxY: int): (r: StepResult)
    requires Keys.IsGetchResult(code)
    ensures r.outcome.TooSmall? <==> maxY < 3
    ensures r.outcome == ChrValueError(code) <==> maxY >= 3 && code == -1
  {
    var guard := LoopGuardAsWritten(startingMaxY, maxY);
    if guard.Some? then StepResult(s, TooSmall(guard.value))
    else
      match Keys.Classify(code)
      case Quit => StepResult(s, Quit)
      case Resize => StepResult(s, Continue)
      case Recall => StepResult(RecallLast(s), Continue)
      case Erase => StepResult(EraseLast(s), Continue)
      case Submit => StepResult(Enter(s), Continue)
      case Typed(k) => if k < 0 then StepResult(s, ChrValueError(k)) else Keystroke(s, k)
  }

  /** One key event: the code getch returned and the window height read right after it. */
  datatype KeyEvent = KeyEvent(code: int, maxY: int)

  predicate AreGetchResults(events: seq<KeyEvent>)
  {
    forall k :: 0 <= k < |events| ==> Keys.IsGetchResult(events[k].code)
  }

  /** The loop run over a finite stream of key events, stopping at the first iteration that does not continue. */
  function Replay(s: SessionState, startingMaxY: int, events: seq<KeyEvent>): StepResult
    requires AreGetchResults(events)
    decreases |events|
  {
    if events == [] then StepResult(s, Continue)
    else
      var step := Transition(s, events[0].code, startingMaxY, events[0].maxY);
      if step.outcome.Continue? then Replay(step.state, startingMaxY, events[1..]) else step
  }

  // ------------------------------------------------------ session properties

  /** Every iteration keeps the buffer and the last submission pure hex. */
  lemma TransitionKeepsInvariant(s: SessionState, code: int, startingMaxY: int, maxY: int)
    requires Invariant(s) && Keys.IsGetchResult(code)
    ensures Invariant(Transition(s, code, startingMaxY, maxY).state)
  {
    PyText.StripWithoutSpace(s.currentInput);
    if 0 <= code <= Keys.KeyMax {
      var c := code as char;
      if IsHex([c]) {
        assert Hex.IsHexDigit(c);
        assert Hex.IsHexString(s.currentInput + [c]);
      }
    }
  }

  /**
   * Nothing happens when the window is too small, whatever the key, 'q'
   * included; the exception reports the height main started with.
   */
  lemma TooSmallComesFirst(s: SessionState, code: int, startingMaxY: int, maxY: int)
    requires Keys.IsGetchResult(code) && maxY < 3
    ensures Transition(s, code, startingMaxY, maxY) == StepResult(s, TooSmall(WindowTooSmall(startingMaxY - 1, 2)))
  {
  }

  /** ^D and 'q' end the session without a state change. */
  lemma QuitKeys(s: SessionState, startingMaxY: int, maxY: int)
    requires maxY >= 3
    ensures Transition(s, Keys.EofChord, startingMaxY, maxY) == StepResult(s, Quit)
    ensures Transition(s, Keys.KeyQ, startingMaxY, maxY) == StepResult(s, Quit)
  {
  }

  /**
   * A rejected key records a message naming its code and character and
   * touches nothing else; the message is shown, except for key 0, whose NUL
   * makes addstr raise after the feedback window was erased.
   */
  lemma RejectedKeystroke(s: SessionState, code: int, startingMaxY: int, maxY: int)
    requires maxY >= 3 && 0 <= code <= Keys.KeyMax && Keys.Classify(code) == Keys.Typed(code)
    requires !Hex.IsHexDigit(code as char)
    ensures var r := Transition(s, code, startingMaxY, maxY);
      && r.outcome == (if code == 0 then NullCharacterError(0) else Continue)
      && r.state == s.(error := RejectMessage(code, code as char),
                       feedback := if code == 0 then "" else r.state.error)
  {
  }

  /** An accepted key clears the error, appends itself, and shows the new buffer's value. */
  lemma AcceptedKeystroke(s: SessionState, code: int, startingMaxY: int, maxY: int)
    requires Invariant(s)
    requires maxY >= 3 && 0 <= code <= Keys.KeyMax && Hex.IsHexDigit(code as char)
    ensures var r := Transition(s, code, startingMaxY, maxY);
      && r.outcome == Continue
      && r.state.error == ""
      && r.state.currentInput == s.currentInput + [code as char]
      && Hex.IsHexString(r.state.currentInput)
      && r.state.feedback == Decimal.NatToDecimal(Hex.HexVal(r.state.currentInput))
      && r.state.lastInput == s.lastInput && r.state.history == s.history
  {
    var c := code as char;
    assert Keys.Classify(code) == Keys.Typed(code);
    HexStringIsHex(s.currentInput + [c]);
  }

  /** Backspace on an empty buffer changes nothing; otherwise it drops the last character. */
  lemma Backspace(s: SessionState, code: int, startingMaxY: int, maxY: int)
    requires Invariant(s) && maxY >= 3
    requires code == Keys.CursesKeyBackspace || code == Keys.KeyBackspace || code == Keys.KeyDelete
    ensures var r := Transition(s, code, startingMaxY, maxY);
      && r.outcome == Continue
      && (s.currentInput == "" ==> r.state == s)
      && (s.currentInput != "" ==>
            && s.currentInput == r.state.currentInput + [s.currentInput[|s.currentInput| - 1]]
            && (r.state.feedback == "" <==> r.state.currentInput == "")
            && (r.state.currentInput != "" ==>
                  r.state.feedback == Decimal.NatToDecimal(Hex.HexVal(r.state.currentInput)))
            && r.state == s.(currentInput := r.state.currentInput, feedback := r.state.feedback))
  {
    if s.currentInput != "" {
      var rest := s.currentInput[..|s.currentInput| - 1];
      assert s.currentInput == rest + [s.currentInput[|s.currentInput| - 1]];
      if rest != [] {
        HexStringIsHex(rest);
      }
    }
  }

  /** Enter with an error showing dismisses it and nothing else; an idle Enter changes nothing. */
  lemma DismissOrIdleEnter(s: SessionState, code: int, startingMaxY: int, maxY: int)
    requires Invariant(s) && maxY >= 3
    requires code == Keys.CursesKeyEnter || code == Keys.KeyEnter
    requires s.error != "" || s.currentInput == ""
    ensures var r := Transition(s, code, startingMaxY, maxY);
      && r.outcome == Continue
      && r.state.currentInput == s.currentInput
      && r.state.lastInput == s.lastInput
      && r.state.history == s.history
      && (s.error != "" ==> r.state == s.(error := "", feedback := ""))
      && (s.error == "" ==> r.state == s)
  {
  }

  /** A submit adds exactly one record at the front of the history, remembers the input and empties the buffer. */
  lemma Submit(s: SessionState, code: int, startingMaxY: int, maxY: int)
    requires Invariant(s) && maxY >= 3
    requires code == Keys.CursesKeyEnter || code == Keys.KeyEnter
    requires s.error == "" && s.currentInput != ""
    ensures var r := Transition(s, code, startingMaxY, maxY);
      && r.outcome == Continue
      && r.state.history == [s.currentInput + " => " + Decimal.NatToDecimal(Hex.HexVal(s.currentInput))] + s.history
      && r.state.lastInput == s.currentInput
      && r.state.currentInput == ""
      && r.state.error == "" && r.state.feedback == ""
  {
    EnterDispatch(s, code, startingMaxY, maxY);
    assert PyText.Strip(s.currentInput) == s.currentInput by {
      PyText.StripWithoutSpace(s.currentInput);
    }
  }

  lemma EnterDispatch(s: SessionState, code: int, startingMaxY: int, maxY: int)
    requires maxY >= 3
    requires code == Keys.CursesKeyEnter || code == Keys.KeyEnter
    ensures Transition(s, code, startingMaxY, maxY) == StepResult(Enter(s), Continue)
  {
  }

  /** Up arrow recalls the last submission, or only clears the feedback when there is none; the error stays. */
  lemma UpArrow(s: SessionState, startingMaxY: int, maxY: int)
    requires Invariant(s) && maxY >= 3
    ensures var r := Transition(s, Keys.KeyUp, startingMaxY, maxY);
      && r.outcome == Continue
      && r.state.error == s.error
      && r.state.lastInput == s.lastInput && r.state.history == s.history
      && (s.lastInput == "" ==> r.state == s.(feedback := ""))
      && (s.lastInput != "" ==>
            r.state.currentInput == s.lastInput
            && r.state.feedback == Decimal.NatToDecimal(Hex.HexVal(s.lastInput)))
  {
    if s.lastInput != "" {
      HexStringIsHex(s.lastInput);
    }
  }

  /** No iteration shortens the history or changes its existing records. */
  lemma HistoryOnlyGrows(s: SessionState, code: int, startingMaxY: int, maxY: int)
    requires Keys.IsGetchResult(code)
    ensures var h := Transition(s, code, startingMaxY, maxY).state.history;
      |h| >= |s.history| && h[|h| - |s.history|..] == s.history
  {
  }

  /** Submitting and then pressing up arrow puts the submitted text back in the buffer. */
  lemma SubmitThenRecall(s: SessionState, startingMaxY: int, maxY: int)
    requires Invariant(s) && maxY >= 3 && s.error == "" && s.currentInput != ""
    ensures var submitted := Transition(s, Keys.KeyEnter, startingMaxY, maxY).state;
      Transition(submitted, Keys.KeyUp, startingMaxY, maxY).state.currentInput == s.currentInput
  {
    PyText.StripWithoutSpace(s.currentInput);
  }

  /** A suffix of a suffix is a suffix. */
  lemma SuffixOfSuffix(h0: seq<string>, h1: seq<string>, h2: seq<string>)
    requires |h1| >= |h0| && h1[|h1| - |h0|..] == h0
    requires |h2| >= |h1| && h2[|h2| - |h1|..] == h1
    ensures |h2| >= |h0| && h2[|h2| - |h0|..] == h0
  {
    assert h2[|h2| - |h1|..][|h1| - |h0|..] == h2[|h2| - |h0|..];
  }

  /** Over any stream of keys the invariant holds and the history only grows at the front. */
  lemma {:induction false} ReplayKeepsInvariantAndHistory(s: SessionState, startingMaxY: int, events: seq<KeyEvent>)
    requires Invariant(s) && AreGetchResults(events)
    ensures var r := Replay(s, startingMaxY, events);
      && Invariant(r.state)
      && |r.state.history| >= |s.history|
      && r.state.history[|r.state.history| - |s.history|..] == s.history
    decreases |events|
  {
    if events != [] {
      var step := Transition(s, events[0].code, startingMaxY, events[0].maxY);
      TransitionKeepsInvariant(s, events[0].code, startingMaxY, events[0].maxY);
      HistoryOnlyGrows(s, events[0].code, startingMaxY, events[0].maxY);
      if step.outcome.Continue? {
        assert AreGetchResults(events[1..]);
        ReplayKeepsInvariantAndHistory(step.state, startingMaxY, events[1..]);
        assert Replay(s, startingMaxY, events) == Replay(step.state, startingMaxY, events[1..]);
        SuffixOfSuffix(s.history, step.state.history, Replay(step.state, startingMaxY, events[1..]).state.history);
      }
    }
  }

  // ---------------------------------------------------------------- scenarios

  /** The decimal texts the scenarios below display, built one digit at a time. */
  lemma DecimalLiterals()
    ensures Decimal.NatToDecimal(10) == "10" && Decimal.NatToDecimal(11) == "11"
    ensures Decimal.NatToDecimal(71) == "71" && Decimal.NatToDecimal(190) == "190"
    ensures Decimal.NatToDecimal(3054) == "3054" && Decimal.NatToDecimal(48879) == "48879"
  {
    Decimal.NatToDecimalDigit('1');
    Decimal.NatToDecimalAppend(1, '0');
    Decimal.NatToDecimalAppend(1, '1');
    Decimal.NatToDecimalDigit('7');
    Decimal.NatToDecimalAppend(7, '1');
    Decimal.NatToDecimalAppend(1, '9');
    Decimal.NatToDecimalAppend(19, '0');
    Decimal.NatToDecimalDigit('3');
    Decimal.NatToDecimalAppend(3, '0');
    Decimal.NatToDecimalAppend(30, '5');
    Decimal.NatToDecimalAppend(305, '4');
    Decimal.NatToDecimalDigit('4');
    Decimal.NatToDecimalAppend(4, '8');
    Decimal.NatToDecimalAppend(48, '8');
    Decimal.NatToDecimalAppend(488, '7');
    Decimal.NatToDecimalAppend(4887, '9');
  }

  lemma HexLiterals()
    ensures Hex.HexVal("A") == 10 && Hex.HexVal("B") == 11 && Hex.HexVal("BE") == 190
    ensures Hex.HexVal("BEE") == 3054 && Hex.HexVal("BEEF") == 48879
  {
    assert "A" == "" + ['A'] && "B" == "" + ['B'] && "BE" == "B" + ['E'];
    assert "BEE" == "BE" + ['E'] && "BEEF" == "BEE" + ['F'];
    Hex.HexValSnoc("", 'A');
    Hex.HexValSnoc("", 'B');
    Hex.HexValSnoc("B", 'E');
    Hex.HexValSnoc("BE", 'E');
    Hex.HexValSnoc("BEE", 'F');
  }

  /** One accepted key in the scenarios below, with the value its buffer shows. */
  lemma TypeHex(s: SessionState, c: char, shown: string)
    requires Invariant(s) && Hex.IsHexDigit(c) && s.error == ""
    requires Decimal.NatToDecimal(Hex.HexVal(s.currentInput + [c])) == shown
    ensures Transition(s, c as int, 24, 24) == StepResult(s.(currentInput := s.currentInput + [c], feedback := shown), Continue)
  {
    AcceptedKeystroke(s, c as int, 24, 24);
  }

  /** Typing B, E, E, F shows 11, 190, 3054, 48879 after each key. */
  lemma BeefTypingScenario()
    ensures Transition(Initial, 'B' as int, 24, 24) == StepResult(SessionState("B", "", "", [], "11"), Continue)
    ensures Transition(SessionState("B", "", "", [], "11"), 'E' as int, 24, 24)
         == StepResult(SessionState("BE", "", "", [], "190"), Continue)
    ensures Transition(SessionState("BE", "", "", [], "190"), 'E' as int, 24, 24)
         == StepResult(SessionState("BEE", "", "", [], "3054"), Continue)
    ensures Transition(SessionState("BEE", "", "", [], "3054"), 'F' as int, 24, 24)
         == StepResult(SessionState("BEEF", "", "", [], "48879"), Continue)
  {
    DecimalLiterals();
    HexLiterals();
    assert "" + ['B'] == "B" && "B" + ['E'] == "BE" && "BE" + ['E'] == "BEE" && "BEE" + ['F'] == "BEEF";
    TypeHex(Initial, 'B', "11");
    TypeHex(SessionState("B", "", "", [], "11"), 'E', "190");
    TypeHex(SessionState("BE", "", "", [], "190"), 'E', "3054");
    TypeHex(SessionState("BEE", "", "", [], "3054"), 'F', "48879");
  }

  /** Enter after BEEF records "BEEF => 48879", remembers BEEF and empties the buffer. */
  lemma BeefSubmitScenario()
    ensures var r := Transition(SessionState("BEEF", "", "", [], "48879"), Keys.KeyEnter, 24, 24);
      r == StepResult(SessionState("", "BEEF", "", ["BEEF => 48879"], ""), Continue)
  {
    var s := SessionState("BEEF", "", "", [], "48879");
    BeefRecord();
    assert Invariant(s);
    Submit(s, Keys.KeyEnter, 24, 24);
  }

  /** The history line for BEEF. */
  lemma BeefRecord()
    ensures Hex.IsHexString("BEEF") && "BEEF" + " => " + Decimal.NatToDecimal(Hex.HexVal("BEEF")) == "BEEF => 48879"
  {
    Hex.BeefIs48879();
    DecimalLiterals();
  }

  /** 'G' is rejected with a message naming it and leaves the buffer empty; 'A' then clears the error and shows 10. */
  lemma RejectThenAcceptScenario()
    ensures var s1 := Transition(Initial, 'G' as int, 24, 24).state;
      var s2 := Transition(s1, 'A' as int, 24, 24).state;
      && s1.error == "input not valid hexadecimal character. ord: 71 chr: G"
      && s1.currentInput == ""
      && s2.error == "" && s2.currentInput == "A" && s2.feedback == "10"
  {
    var message := "input not valid hexadecimal character. ord: 71 chr: G";
    RejectGScenario();
    var s1 := Initial.(error := message, feedback := message);
    assert Invariant(s1);
    AcceptedKeystroke(s1, 'A' as int, 24, 24);
    assert "" + ['A'] == "A";
    DecimalLiterals();
    HexLiterals();
  }

  /** The first half of RejectThenAcceptScenario: the exact state after 'G'. */
  lemma RejectGScenario()
    ensures var message := "input not valid hexadecimal character. ord: 71 chr: G";
      Transition(Initial, 'G' as int, 24, 24) == StepResult(Initial.(error := message, feedback := message), Continue)
  {
    DecimalLiterals();
    assert !Hex.IsHexDigit('G');
    assert RejectMessage(71, 'G') == "input not valid hexadecimal character. ord: 71 chr: G";
    RejectedKeystroke(Initial, 'G' as int, 24, 24);
  }

  /** A window opened 10 rows high and shrunk to 2: any key raises, reporting size 9. */
  lemma ShrinkScenario()
    ensures Transition(Initial, 'B' as int, 10, 2) == StepResult(Initial, TooSmall(WindowTooSmall(9, 2)))
  {
    TooSmallComesFirst(Initial, 'B' as int, 10, 2);
  }

  /** Key 0 (^@) is rejected, and writing its message raises; the error is recorded and the feedback erased. */
  lemma NullKeyScenario()
    ensures Transition(Initial, 0, 24, 24)
         == StepResult(Initial.(error := "input not valid hexadecimal character. ord: 0 chr: \0"), NullCharacterError(0))
  {
    RejectedKeystroke(Initial, 0, 24, 24);
    assert Decimal.NatToDecimal(0) == "0";
  }

  /** An ncurses extended key above KEY_MAX (545, Ctrl+Left in xterm) is rejected like any other non-hex key. */
  lemma ExtendedKeyScenario()
    ensures var message := "input not valid hexadecimal character. ord: 545 chr: \U{221}";
      Transition(Initial, 545, 24, 24) == StepResult(Initial.(error := message, feedback := message), Continue)
  {
    assert Positional.Digits(5, 10) == [5];
    assert Positional.Digits(54, 10) == [5, 4];
    assert Positional.Digits(545, 10) == [5, 4, 5];
    assert Decimal.NatToDecimal(545) == "545";
    assert !Hex.IsHexDigit(545 as char);
    assert RejectMessage(545, 545 as char) == "input not valid hexadecimal character. ord: 545 chr: \U{221}";
    RejectedKeystroke(Initial, 545, 24, 24);
  }

  // ---------------------------------------------------------------- the class

  /** The Htoi class: its fields are the session state; Step is one iteration of main's loop. */
  class Htoi {
    var currentInput: string
    var lastInput: string
    var error: string
    var history: seq<string>
    var feedback: string

    function State(): SessionState
      reads this
    {
      SessionState(currentInput, lastInput, error, history, feedback)
    }

    ghost predicate Valid()
      reads this
    {
      Invariant(State())
    }

    constructor ()
      ensures State() == Initial && Valid()
    {
      currentInput, lastInput, error, history, feedback := "", "", "", [], "";
    }

    /** The up-arrow branch. */
    method RecallKey()
      modifies this
      ensures State() == RecallLast(old(State()))
    {
      if lastInput == "" {
        feedback := "";
        return;
      }
      currentInput := lastInput;
      feedback := HexToDecStr(currentInput);
    }

    /** The backspace branch. */
    method EraseKey()
      modifies this
      ensures State() == EraseLast(old(State()))
    {
      if |currentInput| == 0 {
        return;
      }
      currentInput := currentInput[..|currentInput| - 1];
      feedback := "";
      if |currentInput| > 0 {
        feedback := HexToDecStr(currentInput);
      }
    }

    /** The enter branch. */
    method EnterKey()
      modifies this
      ensures State() == Enter(old(State()))
    {
      if |error| > 0 {
        error := "";
        feedback := "";
        return;
      }
      currentInput := PyText.Strip(currentInput);
      if currentInput == "" {
        return;
      }
      SubmitInput();
    }

    /** The part of the enter branch that records the stripped buffer. */
    method SubmitInput()
      modifies this
      ensures State() == old(State()).(history := [HistoryRecord(old(currentInput))] + old(history), feedback := "",
                                       lastInput := old(currentInput), currentInput := "")
    {
      history := [HistoryRecord(currentInput)] + history;
      feedback := "";
      lastInput := currentInput;
      currentInput := "";
    }

    /** The branch for any other key: a character to validate and append. */
    method CharacterKey(code: int) returns (outcome: Outcome)
      requires 0 <= code <= Keys.KeyMax
      modifies this
      ensures StepResult(State(), outcome) == Keystroke(old(State()), code)
    {
      var c := code as char;
      if !IsHex([c]) {
        error := RejectMessage(code, c);
        feedback := "";
        if c == '\0' {
          return NullCharacterError(code);
        }
        feedback := error;
        return Continue;
      }
      error := "";
      currentInput := currentInput + [c];
      feedback := HexToDecStr(currentInput);
      outcome := Continue;
    }

    /** One iteration of main's loop; startingMaxY is the height main read before the loop. */
    method Step(code: int, startingMaxY: int, maxY: int) returns (outcome: Outcome)
      requires Valid() && Keys.IsGetchResult(code)
      modifies this
      ensures Valid()
      ensures StepResult(State(), outcome) == Transition(old(State()), code, startingMaxY, maxY)
    {
      TransitionKeepsInvariant(State(), code, startingMaxY, maxY);
      var guard := LoopGuardAsWritten(startingMaxY, maxY);
      if guard.Some? {
        return TooSmall(guard.value);
      }
      match Keys.Classify(code)
      case Quit =>
        outcome := Quit;
      case Resize =>
        outcome := Continue;
      case Recall =>
        RecallKey();
        outcome := Continue;
      case Erase =>
        EraseKey();
        outcome := Continue;
      case Submit =>
        EnterKey();
        outcome := Continue;
      case Typed(k) =>
        if k < 0 {
          outcome := ChrValueError(k);
        } else {
          outcome := CharacterKey(k);
        }
    }

    /**
     * main: the startup height check, then the loop over a finite stream of
     * key events; handled counts the events the loop consumed.
     */
    method Run(startingMaxY: int, events: seq<KeyEvent>) returns (outcome: Outcome, handled: nat)
      requires Valid() && AreGetchResults(events)
      modifies this
      ensures Valid() && handled <= |events|
      ensures HeightGuard(startingMaxY).Some? ==>
        outcome == TooSmall(HeightGuard(startingMaxY).value) && handled == 0 && State() == old(State())
      ensures HeightGuard(startingMaxY).None? ==>
        && StepResult(State(), outcome) == Replay(old(State()), startingMaxY, events)
        && (outcome == Continue ==> handled == |events|)
        && (outcome != Continue ==> handled > 0)
    {
      var guard := HeightGuard(startingMaxY);
      if guard.Some? {
        return TooSmall(guard.value), 0;
      }
      outcome, handled := Continue, 0;
      while handled < |events| && outcome == Continue
        invariant Valid() && handled <= |events|
        invariant outcome == Continue ==>
          Replay(old(State()), startingMaxY, events) == Replay(State(), startingMaxY, events[handled..])
        invariant outcome != Continue ==>
          StepResult(State(), outcome) == Replay(old(State()), startingMaxY, events) && handled > 0
        decreases |events| - handled
      {
        assert events[handled..][1..] == events[handled + 1..];
        outcome := Step(events[handled].code, startingMaxY, events[handled].maxY);
        handled := handled + 1;
        assert events[handled - 1..][0] == events[handled - 1];
      }
      if outcome == Continue {
        assert events[handled..] == [];
      }
    }
  }
}

# hack: hex and decimal converters, modelled in Dafny

This project models the number-conversion tools of the `hack` repository:

- **`htoi.py`**: a curses hex-to-decimal converter.
  - `hex_to_dec` converts a whole string, giving `-1` for invalid input.
  - The interactive session keeps four things: the text being typed, the last submitted text, a pending error message, and a history of `"<input> => <decimal>"` records with the newest first.
  - Each key either quits, recalls, erases, submits, or is checked and appended. Everything else is drawing.
  - Each iteration first checks that the window is tall enough.
- **`htoi.old.py`**: the earlier revision of the same session.
  - `hex_to_dec` returns an error text instead of `-1`.
  - Submitted lines get numbered prompts `"<n> htoi > "`.
  - The result window is moved to the row under the cursor, clamped to the screen.
  - The input window is rebuilt whenever the line number is a power of ten, because that is when the prompt grows by one column.
- **`itoh.py`**: `dec_to_hex` is `hex(int(s))`. Its console loop prints the result, or `input not integer`.
- **`util/hex.go`**:
  - `Itoh` is `%x` of an integer.
  - `ItohN` writes each element's `%x` followed by a space.
  - `Btoh` concatenates each byte's `%x` with no separator.

How the model is organised:

- **Shared machinery.** Positional notation (`Positional`) is shared by the hex and decimal modules (`Hex`, `Decimal`). Python's `int(s, 16)`, `int(s)`, `str(n)` and `hex(n)` are modelled on the digit strings they accept and print. `Keys` holds the key codes and the order in which both loops test them.
- **Each session is modelled twice.**
  - A pure `Transition` function describes one loop iteration. The properties are lemmas about it, and `Replay` runs it over a stream of keys.
  - A class `Htoi` has the source's fields. Its `Step` method says its new state and outcome equal `Transition` of the old state. `Run` is the loop, tied to `Replay`.
- **Key codes.** getch returns -1 (ERR), a byte, a curses key code up to 511 (`curses.KEY_MAX`), or, with the keypad on, one of the terminal's extended keys (Ctrl+Left and the like), which ncurses numbers consecutively after `KEY_MAX`. The model covers every code from -1 to 0x65F (`Keys.KeyMax`); an extended key is a non-hex character and is rejected like any other. `chr(-1)` raises `ValueError`, which leaves `main`. This is modelled as the outcome `ChrValueError`.
- **Key 0.** Key code 0 (^@) is not a hex digit, so its rejection message contains a NUL character. curses' `addstr` raises `ValueError` on such text. Both revisions store the message and erase the feedback or result window first. This is modelled as the outcome `NullCharacterError`, with the error recorded and the feedback empty.
- **The in-loop height check.** The newer session's check inside the loop is modelled as written: it reports `starting_max_y - 1`, so `Transition`, `Replay` and `Step` take the height main read at startup. The startup check itself is `Htoi.HeightGuard` (see "## Findings").
- **The feedback fields.** The `feedback` field of the newer session, like the `feedback` field of the older one, is the text last written to the feedback or result window.

## Model

| member | source | states |
|---|---|---|
| Positional.Eval | htoi.py:22-44 | base-b evaluation by Horner's rule (no contract of its own; see Positional.EvalIsWeightedSum) |
| Positional.EvalIsWeightedSum | htoi.py:22-44 | Horner evaluation of a digit sequence equals the docstring's sum of each digit times 16 to the power of its 0-indexed position from the right |
| Positional.Digits | itoh.py:3-9 | the digits a formatter prints are canonical (non-empty, no leading zero), and start with 0 exactly for zero |
| Positional.EvalDigits | itoh.py:3-9 | reading back the printed digits of n gives n |
| Positional.DigitsEval | itoh.py:3-9 | a canonical digit sequence is exactly the printed digits of its value (the printed form is unique) |
| Positional.DigitsWidth | htoi.old.py:104-116 | a positive n with w digits satisfies base^(w-1) <= n < base^w |
| Positional.WidthFromBounds | htoi.old.py:104-116 | conversely, base^k <= n < base^(k+1) means n has exactly k + 1 digits |
| Hex.HexVal | htoi.py:22-44 | the base-16 value of a string of hex digits (no contract of its own; see Hex.HexValSnoc and Positional.EvalIsWeightedSum) |
| Hex.HexValSnoc | htoi.py:22-44 | appending a digit multiplies the value by 16 and adds the digit |
| Hex.Parse | htoi.py:15-20 | int(s, 16) succeeds exactly on non-empty strings of hex digits, and then yields the positional base-16 value |
| Hex.ToHex | util/hex.go:10-12 | the %x digits of a natural number are non-empty, lower-case, with no leading zero |
| Hex.ToHexRoundTrip | util/hex.go:10-12 | reading ToHex(n) back in base 16 gives n |
| Hex.ToHexOfHexVal | util/hex.go:10-12 | every canonical lower-case hex string is ToHex of its own value |
| Hex.ToHexWidth | util/hex.go:25-31 | a value has one hex digit exactly when it is below 16, and two from 16 to 255 |
| Hex.BeefIs48879 | htoi.py:28-35 | the docstring's worked example: BEEF is 48879 |
| Decimal.NatToDecimal | htoi.py:46-47 | str() of a natural number is a canonical decimal string |
| Decimal.NatToDecimalRoundTrip | htoi.py:46-47 | the decimal text of n has value n |
| Decimal.NatToDecimalOfDecVal | htoi.py:46-47 | a canonical decimal string is exactly str() of its value |
| Decimal.NatToDecimalDigit | htoi.py:46-47 | str() of a number below ten is its single digit |
| Decimal.NatToDecimalAppend | htoi.py:46-47 | for n > 0, str(10 * n + d) is str(n) followed by the digit d |
| Decimal.IntToDecimal | htoi.py:47 | str() of an integer, with a '-' before negative ones (no contract of its own; see Decimal.ParseIntRoundTrip) |
| Decimal.ParseInt | itoh.py:9 | int() succeeds exactly on an optional sign followed by at least one decimal digit |
| Decimal.ParseIntRoundTrip | itoh.py:9 | int(str(n)) == n for every integer, negative ones included |
| PyText.StripLeading | htoi.py:298 | what strip() removes from the front is all whitespace, and what remains does not start with whitespace |
| PyText.StripTrailing | htoi.py:298 | what strip() removes from the back is all whitespace, and what remains does not end with whitespace |
| PyText.Strip | htoi.py:298 | str.strip() with no argument (no contract of its own; see PyText.StripLeading, PyText.StripTrailing and PyText.StripEmptyIff) |
| PyText.StripWithoutSpace | htoi.py:298 | strip() leaves a string without whitespace unchanged |
| PyText.StripEmptyIff | htoi.py:298-300 | strip() gives "" exactly when the text is all whitespace, which is when Enter is an idle press |
| Keys.Classify | htoi.py:210-281 | the loop's chain of key tests in source order, the same in htoi.old.py:310-371 (no contract of its own; see Htoi.QuitKeys and the branch lemmas) |
| Htoi.IsHex | htoi.py:15-20 | is_hex holds exactly for non-empty strings made only of hex digits |
| Htoi.IsHexOfOneChar | htoi.py:15-20 | for one character, is_hex holds exactly for the 22 characters 0-9, a-f, A-F |
| Htoi.HexToDec | htoi.py:22-44 | -1 exactly when int(s, 16) fails; otherwise the base-16 value |
| Htoi.HexToDecStr | htoi.py:46-47 | "-1" on invalid input; otherwise a canonical decimal string whose value is the hex value |
| Htoi.HexStringIsHex | htoi.py:15-47 | a non-empty hex digit string is accepted and converts to str() of its value |
| Htoi.HeightGuard | htoi.py:178-181 | raises exactly when the window is under 3 rows; reports the last row index, which is below the required one (2) |
| Htoi.LoopGuardAsWritten | htoi.py:205-207 | the check inside the loop fires on the current height, like HeightGuard, but carries the startup height starting_max_y - 1 |
| Htoi.LoopGuardAsWrittenMisreports | htoi.py:178-181 | after startup has passed the check, the size the in-loop exception reports is never under the required one, and differs from the current height's report |
| Htoi.LoopGuardShrinkExample | htoi.py:205-207 | a window opened 10 rows high and shrunk to 2 reports size 9, where the current size is 1 |
| Htoi.TooSmallMessage | htoi.py:50-54 | the exception's text "window size <w> is under required height of <r> [0 indexed]" (no contract of its own; see the two message lemmas below) |
| Htoi.LoopGuardShrinkMessage | htoi.py:50-54 | the exception raised in the loop for that window reads "window size 9 is under required height of 2 [0 indexed]" |
| Htoi.HeightGuardShrinkMessage | htoi.py:50-54 | the corrected check on the same window reads "window size 1 is under required height of 2 [0 indexed]" |
| Htoi.TransitionKeepsInvariant | htoi.py:325-348 | every iteration keeps the buffer and the last submission made of hex digits only |
| Htoi.TooSmallComesFirst | htoi.py:205-212 | with fewer than 3 rows, every key, q and ^D included, raises WindowTooSmallException(starting_max_y - 1, 2) and changes nothing |
| Htoi.ShrinkScenario | htoi.py:178-207 | a session started 10 rows high, given a key at 2 rows, raises with window size 9 |
| Htoi.QuitKeys | htoi.py:210-212 | ^D and q end the session with no state change |
| Htoi.RejectMessage | htoi.py:330 | the rejection message names the key: its ord reads back from the text as the key code, and it ends in the key's character |
| Htoi.RejectedKeystroke | htoi.py:325-334 | a non-hex key sets the error to a message naming its code and character and shows it, and changes nothing else; for key 0, addstr raises on the NUL after the feedback was erased |
| Htoi.ExtendedKeyScenario | htoi.py:325-334 | the extended key 545 (above KEY_MAX) is rejected with the message naming it, and the loop goes on |
| Htoi.NullKeyScenario | htoi.py:325-334 | key 0 leaves main with the error "... ord: 0 chr: \0" recorded and the feedback empty |
| Htoi.AcceptedKeystroke | htoi.py:336-348 | a hex key clears the error, appends itself, shows the new buffer's decimal value, and leaves the last input and history alone |
| Htoi.Backspace | htoi.py:256-276 | on an empty buffer nothing happens; otherwise exactly the last character is dropped, and the feedback shows the rest's decimal value, or is empty when nothing is left |
| Htoi.DismissOrIdleEnter | htoi.py:281-300 | Enter with a pending error clears the error and feedback only; an idle Enter changes nothing |
| Htoi.HistoryRecord | htoi.py:302-303 | the history line is the input, " => ", then str() of its hex value, or "-1" when the input is not hex |
| Htoi.Submit | htoi.py:281-321 | Enter adds exactly the record "<input> => <decimal>" at the front of the history, remembers the input, and empties the buffer, the error and the feedback |
| Htoi.UpArrow | htoi.py:221-243 | up arrow recalls the last input and shows its value, only clears feedback when there is no last input, and keeps the error and history |
| Htoi.HistoryOnlyGrows | htoi.py:303-307 | no iteration removes or changes an existing history record; new records go only at the front |
| Htoi.SubmitThenRecall | htoi.py:221-321 | submitting and then pressing up arrow puts the submitted text back in the buffer |
| Htoi.ReplayKeepsInvariantAndHistory | htoi.py:200-348 | over any stream of keys the invariant holds and the history keeps its old records as a suffix |
| Htoi.BeefTypingScenario | htoi.py:336-348 | typing B, E, E, F shows 11, 190, 3054, 48879 |
| Htoi.BeefSubmitScenario | htoi.py:297-321 | Enter after BEEF records "BEEF => 48879", remembers BEEF and empties the buffer |
| Htoi.RejectThenAcceptScenario | htoi.py:325-348 | G is rejected with "input not valid hexadecimal character. ord: 71 chr: G"; A then clears the error and shows 10 |
| Htoi.Htoi.constructor | htoi.py:74-99 | every session field starts empty |
| Htoi.Htoi.RecallKey | htoi.py:221-243 | the up-arrow branch's new state is RecallLast of the old |
| Htoi.Htoi.EraseKey | htoi.py:256-276 | the backspace branch's new state is EraseLast of the old |
| Htoi.Htoi.EnterKey | htoi.py:281-321 | the enter branch's new state is Enter of the old |
| Htoi.Htoi.SubmitInput | htoi.py:302-316 | a submit pushes the record, remembers the stripped input and empties the buffer and feedback |
| Htoi.Htoi.CharacterKey | htoi.py:325-348 | the character branch's new state and outcome are Keystroke of the old state |
| Htoi.Htoi.Step | htoi.py:200-348 | one loop iteration: the in-loop height check as written, then dispatch in source order; keeps the invariant and matches Transition |
| Htoi.Htoi.Run | htoi.py:178-348 | the startup height check, then the loop over a key stream with the startup height passed to every iteration, stopping at the first non-continuing one, equal to Replay |
| Htoi.RecallLast | htoi.py:221-243 | the up-arrow branch, as a function on the session state (no contract of its own; see Htoi.UpArrow) |
| Htoi.EraseLast | htoi.py:256-276 | the backspace branch (no contract of its own; see Htoi.Backspace) |
| Htoi.Enter | htoi.py:281-321 | the enter branch: dismiss, idle press or submit (no contract of its own; see Htoi.DismissOrIdleEnter and Htoi.Submit) |
| Htoi.Keystroke | htoi.py:323-348 | the branch for any other key (no contract of its own; see Htoi.RejectedKeystroke and Htoi.AcceptedKeystroke) |
| Htoi.Transition | htoi.py:200-348 | one iteration: the in-loop height check, then the dispatch in source order; it raises WindowTooSmallException exactly below 3 rows, and ValueError from chr exactly for getch's -1 |
| Htoi.Replay | htoi.py:200-348 | the loop over a finite key stream, stopping at the first non-continuing iteration (no contract of its own; see Htoi.ReplayKeepsInvariantAndHistory) |
| HtoiOld.HexToDec | htoi.old.py:30-52 | an integer exactly when int(s, 16) succeeds; otherwise the error case |
| HtoiOld.HexToDecStr | htoi.old.py:54-55 | "invalid input for base 16 conversion" on invalid input; otherwise the canonical decimal text of the value |
| HtoiOld.ResultRow | htoi.old.py:182-208 | the result row is the row under the cursor clamped to the last screen row and to 0, and lies inside any screen of at least one row |
| HtoiOld.InputSubwinAction | htoi.old.py:117-130 | the input window is rebuilt exactly when the line count is a positive power of ten; log10 fails exactly at 0; negative counts return early |
| HtoiOld.PowIsPowerOfTen | htoi.old.py:122-123 | every 10^k passes the log10(n).is_integer() test |
| HtoiOld.PowerOfTenIsPow | htoi.old.py:122-123 | a positive n passes the test exactly when n is 10 to the power of its digit count minus one |
| HtoiOld.DigitsWidenAtPowersOfTen | htoi.old.py:104-116 | from n = 2 on, the digit count goes up by one exactly when n is a power of ten |
| HtoiOld.IsPowerOfTen | htoi.old.py:122-123 | log10(n).is_integer() in exact arithmetic (no contract of its own; see HtoiOld.PowIsPowerOfTen and HtoiOld.PowerOfTenIsPow) |
| HtoiOld.Prompt | htoi.old.py:273 | the numbered prompt (no contract of its own; see HtoiOld.PromptText) |
| HtoiOld.PromptText | htoi.old.py:273 | the prompt of line n is str(n) followed by " htoi > " |
| HtoiOld.PromptWidensAtPowersOfTen | htoi.old.py:104-130 | from n = 2 on, the prompt grows by one column exactly when the rebuild test fires |
| HtoiOld.Start | htoi.old.py:266-281 | the line index starts at the cursor row after the welcome text, the prompt is numbered by it, and the buffers are empty |
| HtoiOld.RecallKeepsInvariant | htoi.old.py:319-331 | up arrow keeps the buffers hex and the prompt numbered |
| HtoiOld.EraseKeepsInvariant | htoi.old.py:344-366 | backspace keeps the buffers hex and the prompt numbered |
| HtoiOld.EnterKeepsInvariant | htoi.old.py:371-435 | Enter keeps the invariant and never reaches log10(0) |
| HtoiOld.KeystrokeKeepsInvariant | htoi.old.py:437-463 | a typed key keeps the buffers hex |
| HtoiOld.TransitionKeepsInvariant | htoi.old.py:290-463 | every iteration keeps the invariant, and log10's ValueError never happens |
| HtoiOld.Submit | htoi.old.py:371-435 | a submit numbers the next line and its prompt, remembers the unstripped buffer, empties it, and rebuilds the input window exactly when the new number is a power of ten; the result window is neither moved nor rewritten |
| HtoiOld.DismissOrIdleEnter | htoi.old.py:371-385 | dismissing an error, or an idle Enter, leaves the line number, prompt and buffers alone and the error empty |
| HtoiOld.UpArrow | htoi.old.py:319-331 | up arrow copies the last input into the buffer even when it is empty, wipes the result window and moves it under the cursor; nothing else changes |
| HtoiOld.Backspace | htoi.old.py:344-366 | on an empty buffer nothing but the cursor row changes; otherwise exactly the last character goes, the result window moves under the cursor and shows the rest's decimal value or nothing; nothing else changes |
| HtoiOld.TypedCharacter | htoi.old.py:437-463 | the result window moves under the cursor; a non-hex key sets the error message, shows it and keeps the buffer; key 0 makes addstr raise after the window was wiped; a hex key clears the error, is appended, and the new buffer's conversion is shown; nothing else changes |
| HtoiOld.ReplayKeepsInvariant | htoi.old.py:290-463 | over any key stream the invariant holds, the line number never goes down, and log10 never fails |
| HtoiOld.Htoi.constructor | htoi.old.py:71-102 | __init__ and main's setup give Start of the cursor row after the welcome text |
| HtoiOld.Htoi.ResultWindowMove | htoi.old.py:182-208 | sets the result window row to ResultRow, and nothing else |
| HtoiOld.Htoi.ManageInputSubwin | htoi.old.py:117-130 | reports the log10 failure exactly at 0, and counts one rebuild exactly when InputSubwinAction says Rebuild |
| HtoiOld.Htoi.RecallKey | htoi.old.py:319-331 | the up-arrow branch's new state is RecallLast of the old |
| HtoiOld.Htoi.EraseKey | htoi.old.py:344-366 | the backspace branch's new state is EraseLast of the old |
| HtoiOld.Htoi.SubmitLine | htoi.old.py:387-435 | numbers the next line, remembers and empties the buffer, and rebuilds at powers of ten |
| HtoiOld.Htoi.EnterKey | htoi.old.py:371-435 | the enter branch's new state and outcome are Enter of the old state |
| HtoiOld.Htoi.CharacterKey | htoi.old.py:437-463 | the character branch's new state and outcome are Keystroke of the old state |
| HtoiOld.Htoi.Step | htoi.old.py:290-463 | re-reads the cursor row, then dispatches; keeps the invariant and matches Transition |
| HtoiOld.Htoi.Run | htoi.old.py:288-469 | the loop over a key stream, stopping at the first non-continuing iteration, equal to Replay |
| HtoiOld.RecallLast | htoi.old.py:319-331 | the up-arrow branch (no contract of its own; see HtoiOld.UpArrow) |
| HtoiOld.EraseLast | htoi.old.py:344-366 | the backspace branch (no contract of its own; see HtoiOld.Backspace) |
| HtoiOld.Enter | htoi.old.py:371-435 | the enter branch (no contract of its own; see HtoiOld.DismissOrIdleEnter and HtoiOld.Submit) |
| HtoiOld.Keystroke | htoi.old.py:437-463 | the branch for any other key (no contract of its own; see HtoiOld.TypedCharacter) |
| HtoiOld.Transition | htoi.old.py:290-463 | one iteration: record the cursor row, then dispatch in source order (no contract of its own; see HtoiOld.TransitionKeepsInvariant) |
| HtoiOld.Replay | htoi.old.py:288-469 | the loop over a finite key stream (no contract of its own; see HtoiOld.ReplayKeepsInvariant) |
| Itoh.PyHex | itoh.py:9 | hex(n) is "0x", or "-0x" for negatives, followed by canonical lower-case digits whose value is abs(n) |
| Itoh.PyHexRoundTrip | itoh.py:9 | hex()'s text reads back as the same integer |
| Itoh.DecToHex | itoh.py:3-9 | fails exactly when int() fails; on success its text reads back as int(input) |
| Itoh.DecToHexOfDigits | itoh.py:3-9 | digits alone, leading zeros allowed, give "0x" and the canonical hex digits of their value |
| Itoh.DecToHexOfNegative | itoh.py:3-9 | a negative number's text gives "-0x" and the digits of its magnitude |
| Itoh.DecToHexOfDecimal | itoh.py:3-9 | the text str() writes for any integer converts to hex() of that integer |
| Itoh.Report | itoh.py:20-27 | an empty line exits the console loop, and only an empty line does; any other line prints hex(int(line)) when int() succeeds, and "input not integer" exactly when it fails |
| Itoh.Transcript | itoh.py:20-27 | the loop over a stream of lines prints, line for line, what Report prints |
| Itoh.TranscriptStopsAtEmptyLine | itoh.py:20-23 | the loop prints exactly one line per input line before the first empty one, and then stops |
| Itoh.NotIntegers | itoh.py:24-27 | "", "-" and "1f" are not integers |
| HexUtil.Itoh | util/hex.go:10-12 | %x of an integer is never empty |
| HexUtil.ItohDigits | util/hex.go:10-12 | for i >= 0, the canonical lower-case digits of i; for i < 0, a '-' followed by the digits of -i |
| HexUtil.ItohRoundTrip | util/hex.go:10-12 | %x of an integer reads back as the same integer |
| HexUtil.ItohOfHexVal | util/hex.go:10-12 | every canonical lower-case field is %x of its value |
| HexUtil.ItohHasNoSpace | util/hex.go:10-12 | %x of an integer contains no space, so ItohN's separator is unambiguous |
| HexUtil.JoinAppend | util/hex.go:15-22 | formatting a concatenation of slices concatenates their formats |
| HexUtil.ItohN | util/hex.go:15-22 | the loop builds Itoh(i) + " " for each element, in order |
| HexUtil.ItohNEnding | util/hex.go:15-22 | the output is "" exactly for an empty slice, and otherwise ends in exactly one space |
| HexUtil.ItohNRoundTrip | util/hex.go:15-22 | ItohN's output reads back field by field as the same slice |
| HexUtil.Btoh | util/hex.go:25-31 | the loop builds each byte's %x with no separator, in order |
| HexUtil.BtohLength | util/hex.go:25-31 | the length is the byte count plus the number of bytes >= 0x10, so it lies in [n, 2n] and is 0 exactly for no bytes |
| HexUtil.BtohAmbiguous | util/hex.go:25-31 | [0x1, 0x23] and [0x12, 0x3] both dump as "123" |
| HexUtil.BtohWideRoundTrip | util/hex.go:25-31 | when every byte is at least 0x10, the dump reads back two digits per byte |

## Left out

- Curses rendering is left out. This covers window creation, erasing, refreshing, colours, attributes, cursor visibility, and the transcript the older revision writes to the main window. Only the text last written to the feedback or result window is kept, as `feedback`.
- The history window's text is left out. That is the newline join of the history, and the model keeps the history itself.
- Debug logging and `report_positions` are left out, including the unconditional `report_positions` call in the older revision's backspace branch. They write only to a log file.
- Resizing is left out. Both loops only `continue` on the resize code, and that is what the model does.
- Both `__main__` blocks are left out, and so are `argparse`, the one-shot command-line conversion and the `curses.error` handler. itoh.py's `input()` loop is kept only as what it prints for a finite list of lines (`Itoh.Report`, `Itoh.Transcript`). The prompt text and the reading itself are I/O.
- `KeyboardInterrupt`, `EOFError` and `curses.endwin` are left out. They are I/O and signals.
- `Hex.Parse` models `int(s, 16)` on ASCII hex digits only, and `Decimal.ParseInt` models `int(s)` on an optional ASCII sign and ASCII digits. Python's `int()` also accepts surrounding whitespace, `_` separators, a sign and a `0x` prefix in base 16 text, and non-ASCII Unicode digits. This matters only for whole-string conversions (`hex_to_dec`, `dec_to_hex`) of text a key cannot produce: every key code from 0 to 0x65F is hex under `int(chr(i), 16)` exactly when it is an ASCII hex digit, so the session buffers only ever hold ASCII hex digits.
- `HtoiOld.IsPowerOfTen` replaces `log10(n).is_integer()` with exact integer arithmetic. Floating-point rounding for numbers near a power of ten is not modelled.
- The older revision re-reads `main_cursor_y` after a submit, at htoi.old.py:422. The model does not record that read. Its only use before the next iteration reads the cursor row again is the drawing call `input_window_move` at htoi.old.py:432, which moves the input window and changes nothing the session state holds.
- Go's integer widths are left out. `%x` prints a value of any `Intish` type as its mathematical value, so there is no wrap-around to model, and `HexUtil.Itoh` takes an unbounded `int`.
- main_test.go tests a `logic()` function that is not part of this model.
- Htoi.HexToDecStr, HtoiOld.HexToDecStr, Decimal.NatToDecimal, Decimal.IntToDecimal, Htoi.Keystroke, Htoi.RecallLast, Htoi.EraseLast, Htoi.Enter: do not model the limit that Python 3.11 and later puts on `str()` of an integer. Above 4300 decimal digits, `str()` in `hex_to_dec_str` raises `ValueError`, which would leave `main`. The limit depends on the interpreter version and `sys.set_int_max_str_digits`. The model converts a buffer of any length.
- HtoiOld.Keystroke, HtoiOld.EraseLast, HtoiOld.Enter, HtoiOld.Htoi.SubmitLine, HtoiOld.Htoi.EnterKey: do not model that `str()` limit either. In a submit, `hex_to_dec_str` at htoi.old.py:400 would raise after `input_line_index` and `prompt` have advanced (htoi.old.py:387-388) and before `last_input` and `current_input` change (htoi.old.py:415-416), leaving `main`. The model always completes the submit.
- Keys.IsGetchResult, Htoi.Transition, Htoi.Replay, Htoi.Htoi.Step, Htoi.Htoi.Run, HtoiOld.Transition, HtoiOld.Replay, HtoiOld.Htoi.Step, HtoiOld.Htoi.Run: key codes above 0x65F are not modelled. chr() of such a code is a character whose acceptance by `int(c, 16)` depends on Python's Unicode table of decimal digits (U+0660 is the first non-ASCII one), which the model does not carry. Since ncurses numbers extended keys consecutively from 512, such a code needs a terminal description with more than 1100 extended keys.
- Decimal.ParseInt: does not model the same limit on `int()` of decimal text above 4300 digits.
- Itoh.Report: therefore prints hex() of such text, where Python 3.11's `int()` would raise and the loop would print "input not integer".
- HexUtil.ItohN: the loop is modelled over a Dafny sequence of integers. Go's generic type parameter is collapsed into `int`.

## Findings

| source | as written | input that shows it | evidently intended | confidence | as-written member | corrected member |
|---|---|---|---|---|---|---|
| htoi.py:205-207 | inside the loop, the height check raises `WindowTooSmallException(starting_max_y - 1, ...)`, reporting the height the window had at startup | a window opened 10 rows high and shrunk to 2 reports "window size 9 is under required height of 2 [0 indexed]" | report the current height, `main_max_y - 1`, which is 1: "window size 1 is under required height of 2 [0 indexed]" | not executed | Htoi.LoopGuardAsWritten, Htoi.LoopGuardAsWrittenMisreports, Htoi.LoopGuardShrinkExample, Htoi.LoopGuardShrinkMessage, Htoi.ShrinkScenario | Htoi.HeightGuard, Htoi.HeightGuardShrinkMessage |

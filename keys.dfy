/**
 * The key codes both revisions of the session loop dispatch on, and the
 * order in which the loop tests them.
 */
module Keys {

  const EofChord := 4             // ^D
  const KeyEnter := 10            // line feed, sent by <return>
  const KeyQ := 113               // 'q', which quits in any position
  const KeyBackspace := 127
  const KeyUp := 259              // curses.KEY_UP
  const CursesKeyBackspace := 263 // curses.KEY_BACKSPACE
  const KeyDelete := 330
  const CursesKeyEnter := 343     // curses.KEY_ENTER
  const ResizeOrd := 410          // the code a terminal resize produces
  const CursesKeyMax := 511       // curses.KEY_MAX, the last of the standard key codes

  /**
   * The largest key code the model covers. ncurses numbers a terminal's
   * extended keys (Ctrl+Left and the like) consecutively after KEY_MAX, so
   * getch can return codes above CursesKeyMax. Up to U+065F every character
   * chr(code) passes int(chr(code), 16) exactly when it is an ASCII hex digit:
   * U+0660 is the first non-ASCII decimal digit, and no character from U+0200
   * to U+065F is whitespace.
   */
  const KeyMax := 0x65F

  /** What getch can return: ERR (-1), a byte, a curses key code or an extended key code. */
  predicate IsGetchResult(code: int)
  {
    -1 <= code <= KeyMax
  }

  datatype Action = Quit | Resize | Recall | Erase | Submit | Typed(code: int)

  /** The loop's chain of tests, in source order; a code no test claims is a typed character. */
  function Classify(code: int): Action
  {
    if code == EofChord || code == KeyQ then Quit
    else if code == ResizeOrd then Resize
    else if code == KeyUp then Recall
    else if code == CursesKeyBackspace || code == KeyBackspace || code == KeyDelete then Erase
    else if code == CursesKeyEnter || code == KeyEnter then Submit
    else Typed(code)
  }
}

/**
 * Keystrokes as curses' blocking `getch` delivers them: a byte value, one of
 * the ncurses `KEY_*` codes, or an extended code above KEY_MAX that the
 * terminal description defines (Ctrl or Alt with an arrow, say). Codes are
 * taken below 0xD800, the first surrogate, so that every key is also a
 * character `chr` can produce.
 */
module Keys {
  type KeyCode = k: int | 0 <= k < 0xD800

  const CTRL_H: KeyCode := 8
  const NEWLINE: KeyCode := 10
  const ESCAPE: KeyCode := 27
  const SPACE: KeyCode := 32
  const ASCII_DEL: KeyCode := 127

  const KEY_DOWN: KeyCode := 258
  const KEY_UP: KeyCode := 259
  const KEY_BACKSPACE: KeyCode := 263
  const KEY_DC: KeyCode := 330
  const KEY_ENTER: KeyCode := 343
  const KEY_RESIZE: KeyCode := 410

  const KEY_Q: KeyCode := 'q' as int
  const KEY_A: KeyCode := 'a' as int
  const KEY_D: KeyCode := 'd' as int
  const KEY_E: KeyCode := 'e' as int
  const KEY_O: KeyCode := 'o' as int
  const KEY_LOWER_Y: KeyCode := 'y' as int
  const KEY_UPPER_Y: KeyCode := 'Y' as int
  const KEY_LOWER_N: KeyCode := 'n' as int
  const KEY_UPPER_N: KeyCode := 'N' as int
}

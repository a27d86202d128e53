/**
 * Terminal input events, reduced to the keys the application tells apart.
 * Every other key code (function keys, arrows other than Left and Right,
 * Delete, Home, ...) is `OtherKey`; every event that is not a key event
 * (resize, mouse, focus, paste) is `NonKey`.
 */
module Events {

  datatype KeyCode = Char(c: char) | Enter | Backspace | Left | Right | Tab | Esc | OtherKey

  datatype KeyEventKind = Press | Repeat | Release

  datatype Event = Key(code: KeyCode, kind: KeyEventKind) | NonKey

  /** A key event of kind Press. */
  predicate IsPress(e: Event)
  {
    e.Key? && e.kind == Press
  }
}

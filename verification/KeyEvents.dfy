/** Key events, shared by the scancode decoder, the input queue and the shell. */
module KeyEvents {
  import opened Machine

  datatype KeyEvent =
    | Character(code: byte)
    | Backspace
    | Tab
    | Enter
    | Left
    | Right
    | Up
    | Down
    | Home
    | End
    | Delete

  predicate IsPrintable(b: byte) {
    0x20 <= b <= 0x7e
  }

  /** The events the decoder may queue: its characters are printable ASCII. */
  predicate IsClean(e: KeyEvent) {
    e.Character? ==> IsPrintable(e.code)
  }
}

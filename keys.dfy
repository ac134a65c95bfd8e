/** The part of crossterm's key events that `update` looks at. */
module Keys {

  /** `KeyCode`; keys the model does not name individually are `Other`. */
  datatype KeyCode =
    | Backspace | Enter | Left | Right | Up | Down | Home | End
    | Tab | Delete | Esc
    | F(n: nat)
    | Char(c: char)
    | Other(code: nat)

  /** `KeyModifiers` is a bit set over `u8`. */
  type Modifiers = bv8

  const NONE: Modifiers := 0x00
  const SHIFT: Modifiers := 0x01
  const CONTROL: Modifiers := 0x02
  const ALT: Modifiers := 0x04

  datatype KeyEvent = KeyEvent(code: KeyCode, modifiers: Modifiers)
}

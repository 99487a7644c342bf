/** The fixed key bindings used when no text field captures the keyboard.
    Scancodes are those of the Keyboard/Keypad usage page (0x07), section 10 of
    the USB HID Usage Tables, which SDL scancodes follow. */
module Keys {
  import opened Events

  const Digit1: int := 30     // "1"; "2".."9" follow, then "0" at 39
  const Digit0: int := 39
  const ReturnKey: int := 40
  const EscapeKey: int := 41
  const LeftArrow: int := 80
  const KeypadEnter: int := 88
  const Keypad1: int := 89    // keypad "1"; keypad "2".."9" follow, then keypad "0" at 98
  const Keypad0: int := 98
  const RightGui: int := 231

  /** The application event a non-repeated key press raises, if any: a device
      step, a device ordinal in 0..9, "enter" or "escape", and nothing else. */
  function Binding(code: int): (r: Option<Event>)
    ensures r.Some? ==>
      (r.value in {OpenPrevJoystick, OpenNextJoystick, Enter, Escape} ||
       (r.value.OpenJoystick? && 0 <= r.value.ordinal <= 9))
  {
    if code == LeftArrow then Some(OpenPrevJoystick)
    else if code == RightGui then Some(OpenNextJoystick)
    else if Digit1 <= code <= Digit0 then Some(OpenJoystick(code - Digit1))
    else if Keypad1 <= code <= Keypad0 then Some(OpenJoystick(code - Keypad1))
    else if code == ReturnKey || code == KeypadEnter then Some(Enter)
    else if code == EscapeKey then Some(Escape)
    else None
  }

  /** The scancode of the digit key `d` on the main block, in HID order "1".."9", "0". */
  function DigitKey(d: nat): int
    requires d <= 9
  {
    if d == 0 then Digit0 else Digit1 + d - 1
  }

  /** The scancode of the keypad digit `d`. */
  function KeypadKey(d: nat): int
    requires d <= 9
  {
    if d == 0 then Keypad0 else Keypad1 + d - 1
  }

  /** Digit keys, on either block, ask for ordinals 0..9: "1" is the first
      device, "9" the ninth and "0" the tenth. */
  lemma DigitOrdinal(d: nat)
    requires d <= 9
    ensures Binding(DigitKey(d)) == Some(OpenJoystick(if d == 0 then 9 else d - 1))
    ensures Binding(KeypadKey(d)) == Some(OpenJoystick(if d == 0 then 9 else d - 1))
  {
  }

  /** Only digit keys ask for an ordinal, and the ordinal is always 0..9. */
  lemma OrdinalOnlyFromDigits(code: int, n: int)
    requires Binding(code) == Some(OpenJoystick(n))
    ensures 0 <= n <= 9
    ensures code == Digit1 + n || code == Keypad1 + n
  {
  }

  /** The navigation and confirmation keys, in both directions. */
  lemma NamedBindings(code: int)
    ensures Binding(code) == Some(Enter) <==> code == ReturnKey || code == KeypadEnter
    ensures Binding(code) == Some(Escape) <==> code == EscapeKey
    ensures Binding(code) == Some(OpenPrevJoystick) <==> code == LeftArrow
    ensures Binding(code) == Some(OpenNextJoystick) <==> code == RightGui
  {
  }

  /** Every other key is ignored. */
  lemma UnboundKeys(code: int)
    ensures Binding(code) == None <==>
      !(Digit1 <= code <= Digit0 || Keypad1 <= code <= Keypad0 ||
        code in {LeftArrow, RightGui, ReturnKey, KeypadEnter, EscapeKey})
  {
  }
}

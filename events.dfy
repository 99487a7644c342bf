/** What the input coordinator tells the outside world.
    The application callbacks (Program::Event...), the calls the coordinator makes
    on UI objects, and its text-input toggles are recorded, in order, as Events. */
module Events {

  datatype Option<T> = None | Some(value: T)

  /** A call the coordinator makes on the UI object at a given index. */
  datatype Action =
    | Click                      // Button::OnClick, LineEditor::OnClick
    | Confirm                    // LineEditor::Confirm
    | Keypress(scancode: int)    // LineEditor::OnKeypress
    | Text(text: string)         // LineEditor::OnText
    | DragSlider(pos: int)       // HorSlider::DragSlider, ScrollArea::DragSlider
    | SetGrabOffset(offset: int) // assignment to diffSliderMouseX / diffSliderMouseY

  datatype Event =
    | ControllersChanged(flag: bool)
    | TestStopped
    | Enter
    | Escape
    | OpenPrevJoystick
    | OpenNextJoystick
    | OpenJoystick(ordinal: int)
    | StartTextInput
    | StopTextInput
    | Invoke(obj: nat, action: Action)
}

# Input coordinator of GameControllerChecker, modelled in Dafny

GameControllerChecker is a small tool for testing joysticks and game
controllers. Its `InputSys` class keeps a table of open controllers keyed by
SDL instance id, and it keeps a *current device* that is either a key of that
table or `-1`. It also runs a rumble countdown and routes pointer, key and text
events to the UI. The routing targets are a hover target (`mouseOver`), a drag
target (`scrollHold`) and a text field that captures the keyboard (`captured`).
Everywhere else, the application hears about all this through `Program`
callbacks.

The model is one class, `Input.InputSys`, whose fields are those of the source
class. Its methods follow the source method by method. Each method's contract
ties the new state to pure functions in four modules, and lemmas there prove
what the source promises:

- `Devices`: the controller table, seen as the sequence of its keys in
  iteration order (distinct ids). It covers selection, next/previous with
  wrap-around, lookup by ordinal, hot-plug add and delete, and the invariant
  `Selected`: the current id is a key, or `-1` when the table is empty.
- `Rumble`: the `uint32` countdown with its wrap-around underflow test.
- `Keys`: the fixed key bindings. SDL scancodes follow the Keyboard/Keypad page
  (0x07), section 10 of the USB HID Usage Tables: `1`..`9`, `0` are 30..39 and
  `KP_1`..`KP_0` are 89..98.
- `Pointer`: UI objects as a tagged variant (`Button`, `LineEditor`,
  `HorSlider`, `ScrollArea`, and `Plain` for any other object). It also holds
  first-match hit-testing and the slider grab rule.

Three kinds of thing are recorded, in order, in the ghost sequence `log` of
`Events.Event` values:
- the `Program` callbacks;
- calls on UI objects (`OnClick`, `Confirm`, `OnKeypress`, `OnText`,
  `DragSlider`, and assignments to `diffSliderMouseX`/`diffSliderMouseY`);
- SDL's text-input toggles.

UI objects belong to the caller. The coordinator refers to them by their index
in the caller's sequence of objects.

The platform is abstract and enters as parameters:
- whether a device opens, and its instance id (`found`, `dev`);
- where a new key lands in the unordered map's iteration order (`slots`,
  `pos`);
- whether a rumble request was accepted (`played`);
- the pointer position from `SDL_GetMouseState` (`at`).

The widget library (`objects.h`/`objects.cpp`) is not part of this model. It
enters through `Pointer.Geometry`:
- `InRect` as an abstract predicate;
- `HorSlider::sliderW` as a number;
- the thumb position that `SliderX()`/`SliderY()` report after
  `DragSlider(v)`, as an abstract function.

## Behaviour of the code worth noting

- `StopRumble` zeroes the counter and then reads the device with
  `controllers.at`. When no device is current, that lookup throws, so "test
  stopped" is not reported.
- `StartRumble` reads the device with `controllers[curDevice]`, which inserts a
  missing current id with an empty handle, on which nothing can play. A
  rejected `StartRumble` on an empty table therefore still adds the key -1:
  the sentinel becomes a key of the table.
- The slider test uses the closed span `[SliderX, SliderX + sliderW]` (and
  `[SliderY, SliderY + SliderH]` for a scroll area).
- Key order is the unordered map's iteration order, which is an input to the
  model.
- In two places the code departs from its evident intent; both are listed
  under "## Findings". The class uses the corrected behaviour, and the code as
  written is modelled beside it, with a lemma for the input that shows the
  difference.

Preconditions model what the source leaves undefined:
- `NextController` needs the current id to be a key: `std::next(end())` is
  undefined.
- `PrevController` needs a non-empty table.
- `TextEvent` needs a capture target, because it dereferences `captured`.
- Pointer handlers need their held indices to be below the number of objects
  passed in. This stands for the source's requirement that the objects it
  points to are still alive (see "## Left out" for what an index does not
  capture).

`Valid()` is the class invariant. The constructor establishes it and every
method keeps it.

## Model

| member | source | states |
|---|---|---|
| `Input.InputSys.constructor` | src/inputSys.cpp:29-38 | the table holds exactly the ids of the devices that opened, with no duplicates; the current device is the first key, or -1 for an empty table; nothing is captured, hovered or dragged; text input is stopped |
| `Devices.First` | src/inputSys.cpp:37 | the first key (or -1 when empty) satisfies the selection invariant and has ordinal 0 |
| `Devices.IndexOf` | src/inputSys.cpp:249-253 | the count of keys before the first occurrence of the current id: that key sits at the returned ordinal, none before it, and the result is the table size exactly when the id is not a key |
| `Input.InputSys.CurIndex` | src/inputSys.cpp:249-253 | the counting loop returns the ordinal of the current device, or the table size when it is not a key |
| `Input.InputSys.FindController` | src/inputSys.cpp:158-164 | for i below the size, the iterator walk selects the i-th key and CurIndex then reports i; otherwise the selection is unchanged |
| `Devices.FindThenIndex` | src/inputSys.cpp:158-164 | selecting ordinal i of a table with distinct keys and reading back the ordinal gives i |
| `Devices.Find` | src/inputSys.cpp:158-164 | lookup by ordinal keeps the selection invariant and ignores ordinals at or past the size |
| `Devices.IndexOfAt` | src/inputSys.cpp:251 | in a table of distinct keys, the key at ordinal k is found at ordinal k |
| `Devices.Next` | src/inputSys.cpp:148-151 | the key after the current one, wrapping to the first, is again a key |
| `Devices.Prev` | src/inputSys.cpp:153-156 | the key before the current one, wrapping to the last, is again a key |
| `Devices.NextAt` | src/inputSys.cpp:148-151 | from ordinal k, Next goes to ordinal k+1, or to ordinal 0 from the last key |
| `Devices.PrevAt` | src/inputSys.cpp:153-156 | from ordinal k, Prev goes to ordinal k-1, or to the last key from ordinal 0 |
| `Devices.PrevOfAbsent` | src/inputSys.cpp:154-155 | when the current id is not a key of a non-empty table, Prev selects the last key |
| `Devices.PrevNextInverse` | src/inputSys.cpp:148-156 | Prev undoes Next and Next undoes Prev on every key |
| `Devices.SingleDeviceSteps` | src/inputSys.cpp:148-156 | with one device, both Next and Prev leave the selection where it is |
| `Devices.NextN` | src/inputSys.cpp:148-151 | any number of Next steps stays on a key |
| `Devices.PrevN` | src/inputSys.cpp:153-156 | any number of Prev steps stays on a key |
| `Devices.NextNAdd` | src/inputSys.cpp:148-151 | a+b Next steps are a steps followed by b steps |
| `Devices.NextNFrom` | src/inputSys.cpp:148-151 | n Next steps from ordinal k reach ordinal k+n while that is inside the table |
| `Devices.NextNToFirst` | src/inputSys.cpp:148-151 | stepping forward from ordinal k past the last key reaches the first key after N-k steps |
| `Devices.NextNCycleAt` | src/inputSys.cpp:148-151 | N Next steps on N keys return to the key they started from, stated per ordinal |
| `Devices.NextNCycle` | src/inputSys.cpp:148-151 | N Next steps on N keys return to the start |
| `Devices.NextNReaches` | src/inputSys.cpp:148-151 | from any key, fewer than N Next steps reach any given key, so the cycle visits all N keys |
| `Devices.PrevNUndoesNextN` | src/inputSys.cpp:148-156 | n Prev steps undo n Next steps |
| `Devices.PrevNCycle` | src/inputSys.cpp:153-156 | N Prev steps on N keys return to the start |
| `Devices.PrevNReaches` | src/inputSys.cpp:153-156 | from any key, fewer than N Prev steps reach any given key |
| `Input.InputSys.NextController` | src/inputSys.cpp:148-151 | moves the selection to Next of the current key and keeps the invariant |
| `Input.InputSys.PrevController` | src/inputSys.cpp:153-156 | moves the selection to Prev of the current id and keeps the invariant |
| `Devices.Emplace` | src/inputSys.cpp:261 | emplace adds exactly the new id and no other; an id already present leaves the table as it was |
| `Devices.EmplaceDistinct` | src/inputSys.cpp:36 | emplace keeps the keys distinct |
| `Devices.Erase` | src/inputSys.cpp:268 | erase removes exactly the given id, keeps the keys distinct and shrinks the table by one when the id was a key |
| `Devices.AddKeepsSelected` | src/inputSys.cpp:259-265 | adding a device keeps the selection invariant; a device added to an empty table becomes current; an existing selection is kept |
| `Devices.AddSelect` | src/inputSys.cpp:262-263 | with the corrected guard, an existing selection is kept, and the selection is satisfied whenever the old current id was a key or the sentinel |
| `Devices.AddSelectAsWritten` | src/inputSys.cpp:262-263 | the code as written dereferences begin() of an empty table exactly when nothing is current and the table is empty; everywhere else it selects what the corrected guard selects |
| `Devices.AddFailedOpenUndefined` | src/inputSys.cpp:262-263 | as written, a failed open on an empty table with nothing current dereferences begin() of an empty map |
| `Input.InputSys.AddController` | src/inputSys.cpp:259-265 | inserts the id only when the device opened, never overwriting; selects the first key only when nothing was current and the table is non-empty; always reports "controllers changed(false)" |
| `Devices.DelKeepsSelected` | src/inputSys.cpp:267-269 | deleting keeps the keys distinct and the selection invariant; deleting a non-current id leaves the selection unchanged |
| `Devices.DelSelect` | src/inputSys.cpp:268-269 | when the current device is deleted, the first remaining key or the sentinel of an empty table becomes current; otherwise the selection stays; a deleted device is never left current unless it is -1 |
| `Devices.DelFlagAsWritten` | src/inputSys.cpp:268-270 | the flag as written (`id == curDevice` after reselection) is true only when -1 is deleted, so false for every real device |
| `Devices.DelFlagAsWrittenExample` | src/inputSys.cpp:268-270 | with keys [5, 7] and 5 current, deleting 5 moves the selection to 7 while the flag as written says false |
| `Devices.DelFlag` | src/inputSys.cpp:268-270 | the corrected flag (the deleted id was current) is, for every id other than -1, true exactly when the selection changes; it is true with the selection unchanged only when the key -1 was deleted and the table is then empty |
| `Devices.DelSentinelKey` | src/inputSys.cpp:267-270 | a table holding only the key -1 that `StartRumble` inserted, with -1 current: deleting -1 gives the flag true while the selection stays -1 |
| `Input.InputSys.DelController` | src/inputSys.cpp:267-271 | erases the id; if it was current, selects the first remaining key or -1; reports "controllers changed" with the corrected flag |
| `Rumble.Sub32` | src/inputSys.cpp:139 | unsigned 32-bit subtraction: the plain difference when no borrow occurs, the difference plus 2^32 otherwise |
| `Rumble.KeepsRunning` | src/inputSys.cpp:139 | the test `val && val <= curRumbling` on the wrapped difference holds exactly when the tick is shorter than what remains |
| `Rumble.Countdown` | src/inputSys.cpp:137-146 | one tick never increases the counter, and "test stopped" is reported only by a running counter that reaches zero |
| `Rumble.CountdownSpec` | src/inputSys.cpp:137-146 | an idle counter stays 0 with no report; a tick shorter than what remains subtracts with no report; a longer or equal tick stops at 0 with one report; a zero tick changes nothing |
| `Rumble.RunTicksSpec` | src/inputSys.cpp:137-146 | over any series of ticks, a rumble of length r stays on with r minus the elapsed time while less than r has elapsed; once r has elapsed it is off and "test stopped" has been reported exactly once |
| `Rumble.IdleTicks` | src/inputSys.cpp:138 | ticks while idle change nothing and report nothing |
| `Input.InputSys.Tick` | src/inputSys.cpp:137-146 | the counter follows the three cases of the countdown, and "test stopped" is logged exactly when a running counter reaches zero or would underflow |
| `Input.InputSys.StartRumble` | src/inputSys.cpp:166-172 | succeeds exactly when the current id is a key and the platform accepted the rumble, and then records the length; otherwise the counter is unchanged; a missing current id is default-inserted by the lookup |
| `Input.InputSys.StopRumble` | src/inputSys.cpp:174-178 | always zeroes the counter; reports "test stopped" when the current id is a key, and otherwise the checked lookup throws before reporting |
| `Keys.Binding` | src/inputSys.cpp:112-130 | a fresh key press raises at most one event: previous or next joystick, a joystick ordinal in 0..9, "enter" or "escape" |
| `Keys.DigitOrdinal` | src/inputSys.cpp:119-124 | the digit keys `1`..`9`, `0` and `KP_1`..`KP_0` ask for ordinals 0..9, so `0` asks for 9 |
| `Keys.OrdinalOnlyFromDigits` | src/inputSys.cpp:119-124 | a request for ordinal n comes only from the main or keypad digit key at offset n, and n is in 0..9 |
| `Keys.NamedBindings` | src/inputSys.cpp:112-130 | `RETURN`/`KP_ENTER` and only they raise "enter", `ESCAPE` alone raises "escape", left arrow alone "previous joystick", right GUI alone "next joystick" |
| `Keys.UnboundKeys` | src/inputSys.cpp:112-130 | every key outside those bindings raises nothing |
| `Input.InputSys.KeypressEvent` | src/inputSys.cpp:108-131 | with a capture target the scancode is forwarded to it even on repeat and nothing else happens; without one a repeat does nothing and a fresh press raises its binding, if any |
| `Input.InputSys.TextEvent` | src/inputSys.cpp:133-135 | the text goes to the capture target |
| `Pointer.FirstHit` | src/inputSys.cpp:52-56 | the first object whose rectangle contains the point: it is hit and none before it is; none is found exactly when no object is hit |
| `Pointer.Hover` | src/inputSys.cpp:52-56 | hover becomes the first object hit, stays unchanged when none is hit, and stays a valid index when it was one |
| `Input.InputSys.MouseMotionEvent` | src/inputSys.cpp:46-57 | while dragging, the drag target gets the x (slider) or y (scroll area) coordinate and hover never changes; otherwise the first-match scan sets hover to `Hover` of the old target |
| `Pointer.DragFeed` | src/inputSys.cpp:47-51 | a dragged slider is fed the pointer x, a dragged scroll area the pointer y, any other object nothing |
| `Input.InputSys.MouseButtonDownEvent` | src/inputSys.cpp:59-73 | a capture target is asked to confirm on any button; only the left button with a hover target dispatches: click on buttons and line editors, a grab on sliders and on scroll areas whose bar contains the point, nothing on other objects |
| `Pointer.ThumbGrab` | src/inputSys.cpp:77-79 | the thumb is dragged exactly when the pointer lies outside the closed span [thumb, thumb + length], and to the position that centres it under the pointer |
| `Pointer.GrabOffsetWithinThumb` | src/inputSys.cpp:77-79 | when the thumb lands where it was asked to go, the recorded pointer-to-thumb offset lies within the thumb |
| `Input.InputSys.CheckHorSliderClick` | src/inputSys.cpp:75-80 | always sets the drag target; drags to pointer minus half the width only when outside the span; records the offset from the thumb read after any drag |
| `Pointer.SliderGrab` | src/inputSys.cpp:75-80 | along x with the thumb width: dragged exactly outside [SliderX, SliderX + sliderW], and the offset is measured from the thumb as it stands after any drag |
| `Input.InputSys.CheckAreaSliderClick` | src/inputSys.cpp:82-89 | changes nothing unless the point is in the scroll bar; there, the same rule applies vertically with the thumb height |
| `Pointer.AreaGrab` | src/inputSys.cpp:82-89 | along y with the thumb height: dragged exactly outside [SliderY, SliderY + SliderH], and the offset is measured from the thumb as it stands after any drag |
| `Input.InputSys.MouseButtonUpEvent` | src/inputSys.cpp:91-101 | left button with an active drag: resets the drag target's offset to 0, clears the drag target and hit-tests again at the pointer position; otherwise nothing changes |
| `Pointer.DragRelease` | src/inputSys.cpp:92-96 | releasing resets the grab offset of a slider or scroll area to 0 and does nothing to other objects |
| `Input.InputSys.PostMenuSwitch` | src/inputSys.cpp:273-277 | clears the drag and capture targets, stops text input, and hit-tests the new objects at the pointer position |
| `Input.InputSys.SimulateMouseMove` | src/inputSys.cpp:279-283 | a motion event to the reported pointer position with no drag active: hover becomes `Hover` of the old target, nothing logged |
| `Input.InputSys.SetCapture` | src/inputSys.cpp:289-294 | sets the capture target and starts text input for a target, stops it for none |
| `Input.InputSys.IsSelected` | src/inputSys.cpp:296-298 | true exactly when the object is the hover target; two absent objects compare equal |

## Left out

- Opening and closing devices (`Controller::Open`/`Close`,
  `SDL_JoystickInstanceID`) are platform calls. Whether a device opens, and its
  instance id, are inputs. Handles and their release order are not modelled,
  and neither is the destructor loop.
- The source's `DelController` erases a device without closing its handles.
  Handle lifetime is not part of this model.
- The per-device queries (button, hat and axis states, names, counts,
  `IsGamepad`, `IsHaptic`) are reads of hardware state. The trivial accessors
  `CurDevice`, `NumControllers`, `Captured` and `Prog` are left out too.
- `StartRumble`: the float strength and the haptic call are not modelled. The
  platform's answer is the `played` input. `SDL_HapticRumbleStop` in
  `StopRumble` is not logged, because stopping an absent or idle actuator has
  no effect the coordinator sees.
- `MouseWheelEvent` is floating point (`int(float(wheel.y) * -scrollFactor)`).
- The widget library is not modelled, beyond the abstract `Geometry`:
  - `objects.h`/`objects.cpp` are not part of this model;
  - what `OnClick`, `DragSlider` and `ScrollList` do inside an object is not
    modelled (a `LineEditor`'s click presumably captures the keyboard through
    `SetCapture`);
  - the class hierarchy is taken to make the four kinds disjoint.
- The `Program` callbacks are only logged. What the application then does (for
  example, selecting a device on "open joystick n") is not modelled.
- The unordered map's iteration order:
  - the model takes a new key's position as an input;
  - it assumes that erasing keeps the order of the other keys;
  - it does not model a rehash that reorders the whole table.
- `std::prev` on the map's iterators is taken as one step back in iteration
  order. The definition of `umap` and the field initialisers (taken to be null
  and 0) are in `inputSys.h`, which is not part of this model.
- Coordinates and offsets are unbounded integers. The `int` overflow of
  `mx - SliderX()` and similar is not modelled.
- Object identity. The source holds pointers to objects; the model holds
  indices into the caller's sequence, and `Refers` only checks that an index
  is below its length. After `PostMenuSwitch` with the pointer over no object
  of the new menu, hover keeps its old target. In the source that is a
  pointer to an object of the menu that is gone. In the model, an old index
  that is still below the new menu's length silently names the new menu's
  object at that index, and `IsSelected` and `MouseButtonDownEvent` then act
  on that object. The model does not capture this dangling pointer.
- Devices.DelFlag: the property "the flag is true exactly when the selection
  changes" holds for every id other than -1. After a rejected `StartRumble`
  on an empty table has made -1 a key, `DelController(-1)` reports "controllers
  changed(true)" while the selection stays -1 (`Devices.DelSentinelKey`).

## Findings

| source | as written | input that shows it | evidently intended | confidence | as-written member | corrected member |
|---|---|---|---|---|---|---|
| src/inputSys.cpp:262-263 | when nothing is current, `controllers.begin()->first` is read even if the table is still empty | no device connected; a hot-plugged device fails to open; `AddController` then runs on an empty table with `curDevice == -1` | select the first key only when the table is not empty | medium, not executed | `Devices.AddFailedOpenUndefined` | `Devices.AddKeepsSelected` |
| src/inputSys.cpp:268-270 | the flag is `id == curDevice` read after the reselection, so it is false whenever a real device is deleted | keys [5, 7], 5 current, `DelController(5)`: the selection moves to 7 and the flag is false | report whether the deleted device was the current one, that is, for every id other than -1, whether the selection changed | medium, not executed | `Devices.DelFlagAsWrittenExample` | `Devices.DelFlag` |

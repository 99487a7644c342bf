/** The input coordinator: the controller table and the current device, the
    rumble timer, and the routing of pointer, key and text events.
    Application callbacks, calls on UI objects and text-input toggles go to `log`. */
module Input {
  import opened Events
  import opened Devices
  import opened Rumble
  import opened Pointer
  import Keys

  class InputSys {
    /** The keys of the controller table, in iteration order. */
    var ids: seq<int>
    var curDevice: int
    var curRumbling: uint32
    /** The object being dragged, the object under the pointer and the text
        field capturing the keyboard, as indices into the caller's objects. */
    var scrollHold: Option<nat>
    var mouseOver: Option<nat>
    var captured: Option<nat>
    ghost var log: seq<Event>

    ghost predicate Valid()
      reads this
    {
      Distinct(ids) && Selected(ids, curDevice)
    }

    /** Opens every connected device. `found[i]` is the instance id of device
        index i when it opens, `slots[i]` where that id lands in the table's order. */
    constructor (found: seq<Option<int>>, slots: seq<nat>)
      requires |slots| == |found|
      ensures Valid()
      ensures forall x :: x in ids <==> Some(x) in found
      ensures curDevice == First(ids)
      ensures curRumbling == 0 && scrollHold.None? && mouseOver.None? && captured.None?
      ensures log == [StopTextInput]
    {
      var t: seq<int> := [];
      var i := 0;
      while i < |found|
        invariant 0 <= i <= |found|
        invariant Distinct(t)
        invariant forall x :: x in t <==> Some(x) in found[..i]
      {
        if found[i].Some? {
          EmplaceDistinct(t, found[i].value, slots[i]);
          t := Emplace(t, found[i].value, slots[i]);
        }
        assert found[..i + 1] == found[..i] + [found[i]];
        i := i + 1;
      }
      assert found[..i] == found;
      captured := None;
      log := [StopTextInput];
      ids := t;
      curDevice := First(t);
      curRumbling := 0;
      scrollHold := None;
      mouseOver := None;
    }

    // ------------------------------------------------------------ pointer

    method MouseMotionEvent(p: Point, objects: seq<Widget>, geo: Geometry)
      requires Valid() && Refers(scrollHold, objects)
      modifies this`mouseOver, this`log
      ensures Valid()
      ensures scrollHold.Some? ==>
        mouseOver == old(mouseOver) && log == old(log) + DragFeed(objects[scrollHold.value], scrollHold.value, p)
      ensures scrollHold.None? ==>
        mouseOver == Hover(objects, p, geo.inRect, old(mouseOver)) && log == old(log)
    {
      if scrollHold.Some? {
        var k := scrollHold.value;
        match objects[k] {
          case HorSlider(_, _) => log := log + [Invoke(k, DragSlider(p.x))];
          case ScrollArea(_, _, _, _) => log := log + [Invoke(k, DragSlider(p.y))];
          case _ =>
        }
      } else {
        var i := 0;
        while i < |objects|
          invariant 0 <= i <= |objects|
          invariant mouseOver == old(mouseOver)
          invariant FirstHit(objects, p, geo.inRect, i) == FirstHit(objects, p, geo.inRect, 0)
        {
          if geo.inRect(p, objects[i].rect) {
            mouseOver := Some(i);
            break;
          }
          i := i + 1;
        }
      }
    }

    method MouseButtonDownEvent(button: int, p: Point, objects: seq<Widget>, geo: Geometry)
      requires Valid() && Refers(mouseOver, objects)
      modifies this`scrollHold, this`log
      ensures Valid()
      ensures var confirmed := old(log) + if captured.Some? then [Invoke(captured.value, Confirm)] else [];
        if button != LeftButton || mouseOver.None? then
          scrollHold == old(scrollHold) && log == confirmed
        else
          var k := mouseOver.value;
          match objects[k]
          case Button(_) => scrollHold == old(scrollHold) && log == confirmed + [Invoke(k, Click)]
          case LineEditor(_) => scrollHold == old(scrollHold) && log == confirmed + [Invoke(k, Click)]
          case HorSlider(_, _) =>
            scrollHold == Some(k) && log == confirmed + GrabEvents(k, SliderGrab(objects[k], p.x, geo))
          case ScrollArea(_, bar, _, _) =>
            if geo.inRect(p, bar) then
              scrollHold == Some(k) && log == confirmed + GrabEvents(k, AreaGrab(objects[k], p.y, geo))
            else scrollHold == old(scrollHold) && log == confirmed
          case Plain(_) => scrollHold == old(scrollHold) && log == confirmed
    {
      if captured.Some? {
        log := log + [Invoke(captured.value, Confirm)];
      }
      if button != LeftButton || mouseOver.None? {
        return;
      }
      var k := mouseOver.value;
      match objects[k] {
        case Button(_) => log := log + [Invoke(k, Click)];
        case LineEditor(_) => log := log + [Invoke(k, Click)];
        case HorSlider(_, _) => CheckHorSliderClick(objects, k, p.x, geo);
        case ScrollArea(_, _, _, _) => CheckAreaSliderClick(objects, k, p, geo);
        case Plain(_) =>
      }
    }

    /** A press on a horizontal slider always starts a drag; the thumb jumps
        only when the pointer is outside it. */
    method CheckHorSliderClick(objects: seq<Widget>, k: nat, mx: int, geo: Geometry)
      requires Valid() && k < |objects| && objects[k].HorSlider?
      modifies this`scrollHold, this`log
      ensures Valid()
      ensures scrollHold == Some(k)
      ensures log == old(log) + GrabEvents(k, SliderGrab(objects[k], mx, geo))
    {
      var obj := objects[k];
      scrollHold := Some(k);
      var thumb := obj.sliderX;
      if mx < obj.sliderX || mx > obj.sliderX + geo.sliderW {
        log := log + [Invoke(k, DragSlider(mx - geo.sliderW / 2))];
        thumb := geo.thumbAfterDrag(obj, mx - geo.sliderW / 2);
      }
      log := log + [Invoke(k, SetGrabOffset(mx - thumb))];
    }

    /** A press on a scroll area starts a drag only inside its scroll bar. */
    method CheckAreaSliderClick(objects: seq<Widget>, k: nat, p: Point, geo: Geometry)
      requires Valid() && k < |objects| && objects[k].ScrollArea?
      modifies this`scrollHold, this`log
      ensures Valid()
      ensures geo.inRect(p, objects[k].bar) ==>
        scrollHold == Some(k) && log == old(log) + GrabEvents(k, AreaGrab(objects[k], p.y, geo))
      ensures !geo.inRect(p, objects[k].bar) ==> scrollHold == old(scrollHold) && log == old(log)
    {
      var obj := objects[k];
      if geo.inRect(p, obj.bar) {
        scrollHold := Some(k);
        var thumb := obj.sliderY;
        if p.y < obj.sliderY || p.y > obj.sliderY + obj.sliderH {
          log := log + [Invoke(k, DragSlider(p.y - obj.sliderH / 2))];
          thumb := geo.thumbAfterDrag(obj, p.y - obj.sliderH / 2);
        }
        log := log + [Invoke(k, SetGrabOffset(p.y - thumb))];
      }
    }

    /** Releasing the primary button ends a drag and hit-tests again at the
        pointer position `at` the platform reports. */
    method MouseButtonUpEvent(button: int, objects: seq<Widget>, geo: Geometry, at: Point)
      requires Valid() && Refers(scrollHold, objects)
      modifies this`scrollHold, this`mouseOver, this`log
      ensures Valid()
      ensures button == LeftButton && old(scrollHold).Some? ==>
        scrollHold.None? && mouseOver == Hover(objects, at, geo.inRect, old(mouseOver)) &&
        log == old(log) + DragRelease(objects[old(scrollHold).value], old(scrollHold).value)
      ensures !(button == LeftButton && old(scrollHold).Some?) ==>
        scrollHold == old(scrollHold) && mouseOver == old(mouseOver) && log == old(log)
    {
      if button == LeftButton && scrollHold.Some? {
        var k := scrollHold.value;
        if objects[k].HorSlider? || objects[k].ScrollArea? {
          log := log + [Invoke(k, SetGrabOffset(0))];
        }
        scrollHold := None;
        SimulateMouseMove(objects, geo, at);
      }
    }

    /** Clears the drag and the capture and hit-tests against the new objects. */
    method PostMenuSwitch(objects: seq<Widget>, geo: Geometry, at: Point)
      requires Valid()
      modifies this`scrollHold, this`captured, this`mouseOver, this`log
      ensures Valid()
      ensures scrollHold.None? && captured.None?
      ensures mouseOver == Hover(objects, at, geo.inRect, old(mouseOver))
      ensures log == old(log) + [StopTextInput]
    {
      scrollHold := None;
      SetCapture(None);
      SimulateMouseMove(objects, geo, at);
    }

    /** A pointer motion to `at`, the position SDL_GetMouseState reports. */
    method SimulateMouseMove(objects: seq<Widget>, geo: Geometry, at: Point)
      requires Valid() && scrollHold.None?
      modifies this`mouseOver, this`log
      ensures Valid()
      ensures mouseOver == Hover(objects, at, geo.inRect, old(mouseOver)) && log == old(log)
    {
      MouseMotionEvent(at, objects, geo);
    }

    method SetCapture(c: Option<nat>)
      requires Valid()
      modifies this`captured, this`log
      ensures Valid()
      ensures captured == c
      ensures log == old(log) + [if c.Some? then StartTextInput else StopTextInput]
    {
      captured := c;
      if captured.Some? {
        log := log + [StartTextInput];
      } else {
        log := log + [StopTextInput];
      }
    }

    /** Whether `obj` is the hover target; two absent objects compare equal. */
    method IsSelected(obj: Option<nat>) returns (b: bool)
      ensures b <==> obj == mouseOver
    {
      b := obj == mouseOver;
    }

    // ------------------------------------------------------------ keyboard

    method KeypressEvent(code: int, repeat: bool)
      requires Valid()
      modifies this`log
      ensures Valid()
      ensures captured.Some? ==> log == old(log) + [Invoke(captured.value, Keypress(code))]
      ensures captured.None? && repeat ==> log == old(log)
      ensures captured.None? && !repeat ==>
        log == old(log) + if Keys.Binding(code).Some? then [Keys.Binding(code).value] else []
    {
      if captured.Some? {
        log := log + [Invoke(captured.value, Keypress(code))];
      } else if !repeat {
        var e := Keys.Binding(code);
        if e.Some? {
          log := log + [e.value];
        }
      }
    }

    /** Text goes to the capturing field, which must exist. */
    method TextEvent(text: string)
      requires Valid() && captured.Some?
      modifies this`log
      ensures Valid()
      ensures log == old(log) + [Invoke(captured.value, Text(text))]
    {
      log := log + [Invoke(captured.value, Text(text))];
    }

    // ------------------------------------------------------------ rumble

    method Tick(d: uint32)
      requires Valid()
      modifies this`curRumbling, this`log
      ensures Valid()
      ensures curRumbling == Countdown(old(curRumbling), d).remaining
      ensures old(curRumbling) == 0 ==> curRumbling == 0 && log == old(log)
      ensures 0 < old(curRumbling) && d < old(curRumbling) ==>
        curRumbling == old(curRumbling) - d && log == old(log)
      ensures 0 < old(curRumbling) <= d ==> curRumbling == 0 && log == old(log) + [TestStopped]
    {
      CountdownSpec(curRumbling, d);
      if curRumbling != 0 {
        var val := Sub32(curRumbling, d);
        if val != 0 && val <= curRumbling {
          curRumbling := val;
        } else {
          curRumbling := 0;
          log := log + [TestStopped];
        }
      }
    }

    /** `played` is whether the platform accepted the rumble on the current
        device's actuator. The table lookup inserts a missing current id with
        no actuator, on which nothing can play. */
    method StartRumble(length: uint32, played: bool) returns (ok: bool)
      requires Valid()
      modifies this`ids, this`curRumbling
      ensures Valid()
      ensures ok == (played && curDevice in old(ids))
      ensures curRumbling == if ok then length else old(curRumbling)
      ensures ids == if curDevice in old(ids) then old(ids) else old(ids) + [curDevice]
    {
      var present := curDevice in ids;
      if !present {
        ids := ids + [curDevice];
      }
      ok := present && played;
      if ok {
        curRumbling := length;
      }
    }

    /** Zeroes the counter, then looks up the current device; `found` false
        means the checked lookup threw, so "test stopped" is not reported. */
    method StopRumble() returns (found: bool)
      requires Valid()
      modifies this`curRumbling, this`log
      ensures Valid()
      ensures curRumbling == 0
      ensures found == (curDevice in ids)
      ensures log == old(log) + if found then [TestStopped] else []
    {
      curRumbling := 0;
      found := curDevice in ids;
      if found {
        log := log + [TestStopped];
      }
    }

    // ------------------------------------------------------------ devices

    method NextController()
      requires Valid() && curDevice in ids
      modifies this`curDevice
      ensures Valid()
      ensures curDevice == Next(ids, old(curDevice))
    {
      curDevice := Next(ids, curDevice);
    }

    method PrevController()
      requires Valid() && ids != []
      modifies this`curDevice
      ensures Valid()
      ensures curDevice == Prev(ids, old(curDevice))
    {
      curDevice := Prev(ids, curDevice);
    }

    method FindController(i: nat)
      requires Valid()
      modifies this`curDevice
      ensures Valid()
      ensures curDevice == Find(ids, old(curDevice), i)
      ensures i < |ids| ==> IndexOf(ids, curDevice) == i
    {
      if i < |ids| {
        var n, k := i, 0;
        while n > 0
          invariant k + n == i
        {
          n, k := n - 1, k + 1;
        }
        curDevice := ids[k];
        FindThenIndex(ids, old(curDevice), i);
      }
    }

    method CurIndex() returns (n: nat)
      ensures n == IndexOf(ids, curDevice)
      ensures n < |ids| ==> ids[n] == curDevice
      ensures n == |ids| <==> curDevice !in ids
    {
      n := 0;
      while n < |ids| && ids[n] != curDevice
        invariant n <= |ids|
        invariant forall j :: 0 <= j < n ==> ids[j] != curDevice
      {
        n := n + 1;
      }
    }

    /** `dev` is the instance id of the newly opened device, None when it does
        not open; `pos` is where a new id lands in the table's order. */
    method AddController(dev: Option<int>, pos: nat)
      requires Valid()
      modifies this`ids, this`curDevice, this`log
      ensures Valid()
      ensures ids == if dev.Some? then Emplace(old(ids), dev.value, pos) else old(ids)
      ensures curDevice == AddSelect(ids, old(curDevice))
      ensures log == old(log) + [ControllersChanged(false)]
    {
      AddKeepsSelected(ids, curDevice, dev, pos);
      if dev.Some? {
        ids := Emplace(ids, dev.value, pos);
      }
      if curDevice == NoDevice && ids != [] {
        curDevice := ids[0];
      }
      log := log + [ControllersChanged(false)];
    }

    method DelController(id: int)
      requires Valid()
      modifies this`ids, this`curDevice, this`log
      ensures Valid()
      ensures ids == Erase(old(ids), id)
      ensures curDevice == DelSelect(old(ids), old(curDevice), id)
      ensures log == old(log) + [ControllersChanged(DelFlag(old(ids), old(curDevice), id))]
    {
      DelKeepsSelected(ids, curDevice, id);
      var wasCurrent := id == curDevice;
      ids := Erase(ids, id);
      if wasCurrent {
        curDevice := First(ids);
      }
      log := log + [ControllersChanged(wasCurrent)];
    }
  }
}

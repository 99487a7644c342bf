/** UI objects as the input coordinator sees them, hover hit-testing and the
    rule for grabbing a slider thumb. The objects belong to the caller; the
    coordinator refers to them by their index in the caller's sequence. */
module Pointer {
  import opened Events

  datatype Point = Point(x: int, y: int)
  datatype Rect = Rect(x: int, y: int, w: int, h: int)

  /** The kinds of object the coordinator dispatches on, with the geometry it reads. */
  datatype Widget =
    | Button(rect: Rect)
    | LineEditor(rect: Rect)
    | HorSlider(rect: Rect, sliderX: int)
    | ScrollArea(rect: Rect, bar: Rect, sliderY: int, sliderH: nat)
    | Plain(rect: Rect)

  /** The parts of the widget library the coordinator relies on without seeing them. */
  datatype Geometry = Geometry(
    inRect: (Point, Rect) -> bool,        // InRect
    sliderW: nat,                         // HorSlider::sliderW, the thumb width
    thumbAfterDrag: (Widget, int) -> int) // SliderX() / SliderY() after DragSlider(v)

  /** SDL_BUTTON_LEFT */
  const LeftButton: int := 1

  /** A held reference is an index into the caller's objects. */
  predicate Refers(r: Option<nat>, objects: seq<Widget>)
  {
    r.None? || r.value < |objects|
  }

  predicate Hit(objects: seq<Widget>, p: Point, inRect: (Point, Rect) -> bool, j: nat)
    requires j < |objects|
  {
    inRect(p, objects[j].rect)
  }

  /** The first object at or after `from` whose rectangle contains `p`. */
  function FirstHit(objects: seq<Widget>, p: Point, inRect: (Point, Rect) -> bool, from: nat): (r: Option<nat>)
    requires from <= |objects|
    ensures r.Some? ==> from <= r.value < |objects| && Hit(objects, p, inRect, r.value)
    ensures r.Some? ==> forall j :: from <= j < r.value ==> !Hit(objects, p, inRect, j)
    ensures r.None? <==> forall j :: from <= j < |objects| ==> !Hit(objects, p, inRect, j)
    decreases |objects| - from
  {
    if from == |objects| then None
    else if Hit(objects, p, inRect, from) then Some(from)
    else FirstHit(objects, p, inRect, from + 1)
  }

  /** The hover target after a pointer motion without a drag: the first object
      under the pointer, or the previous target when there is none. It never
      points outside the objects unless it already did. */
  function Hover(objects: seq<Widget>, p: Point, inRect: (Point, Rect) -> bool, cur: Option<nat>): (r: Option<nat>)
    ensures Refers(cur, objects) ==> Refers(r, objects)
    ensures (forall j :: 0 <= j < |objects| ==> !Hit(objects, p, inRect, j)) ==> r == cur
    ensures forall k ::
      (0 <= k < |objects| && Hit(objects, p, inRect, k) && forall j :: 0 <= j < k ==> !Hit(objects, p, inRect, j))
      ==> r == Some(k)
  {
    var h := FirstHit(objects, p, inRect, 0);
    if h.Some? then h else cur
  }

  /** What grabbing a slider thumb does: an optional drag request, and the
      offset between the pointer and the thumb, measured after the drag. */
  datatype Grab = Grab(drag: Option<int>, offset: int)

  /** The grab rule of CheckSliderClick along one axis: pointer at `m`, thumb
      spanning [thumb, thumb + len], `after(v)` the thumb position once dragged to `v`.
      The thumb is dragged exactly when the pointer is outside its closed span,
      and then so that its centre lands under the pointer. */
  function ThumbGrab(m: int, thumb: int, len: nat, after: int -> int): (g: Grab)
    ensures g.drag.Some? <==> m < thumb || m > thumb + len
    ensures g.drag.Some? ==> g.drag.value + len / 2 == m
  {
    if m < thumb || m > thumb + len then
      var v := m - len / 2;
      Grab(Some(v), m - after(v))
    else Grab(None, m - thumb)
  }

  /** Whenever the thumb ends up where it was asked to go, the recorded offset
      lies within the thumb, so later drags keep the grabbed point under the pointer. */
  lemma GrabOffsetWithinThumb(m: int, thumb: int, len: nat, after: int -> int)
    requires var g := ThumbGrab(m, thumb, len, after); g.drag.Some? ==> after(g.drag.value) == g.drag.value
    ensures 0 <= ThumbGrab(m, thumb, len, after).offset <= len
  {
  }

  /** The log entries of a grab on object `k`. */
  function GrabEvents(k: nat, g: Grab): seq<Event>
  {
    (if g.drag.Some? then [Invoke(k, DragSlider(g.drag.value))] else []) + [Invoke(k, SetGrabOffset(g.offset))]
  }

  /** The grab on a horizontal slider, along x: the offset is measured from
      the thumb as it stands after any drag. */
  function SliderGrab(w: Widget, mx: int, geo: Geometry): (g: Grab)
    requires w.HorSlider?
    ensures g.drag.Some? <==> mx < w.sliderX || mx > w.sliderX + geo.sliderW
    ensures g.offset == mx - (if g.drag.Some? then geo.thumbAfterDrag(w, g.drag.value) else w.sliderX)
  {
    ThumbGrab(mx, w.sliderX, geo.sliderW, v => geo.thumbAfterDrag(w, v))
  }

  /** The grab on a scroll area's slider, along y, with the thumb height. */
  function AreaGrab(w: Widget, my: int, geo: Geometry): (g: Grab)
    requires w.ScrollArea?
    ensures g.drag.Some? <==> my < w.sliderY || my > w.sliderY + w.sliderH
    ensures g.offset == my - (if g.drag.Some? then geo.thumbAfterDrag(w, g.drag.value) else w.sliderY)
  {
    ThumbGrab(my, w.sliderY, w.sliderH, v => geo.thumbAfterDrag(w, v))
  }

  /** What a pointer motion feeds to the object being dragged: a slider
      follows x, a scroll area y, and any other object is fed nothing. */
  function DragFeed(w: Widget, k: nat, p: Point): (r: seq<Event>)
    ensures r != [] <==> w.HorSlider? || w.ScrollArea?
    ensures forall e :: e in r ==> e == Invoke(k, DragSlider(if w.HorSlider? then p.x else p.y))
  {
    match w
    case HorSlider(_, _) => [Invoke(k, DragSlider(p.x))]
    case ScrollArea(_, _, _, _) => [Invoke(k, DragSlider(p.y))]
    case _ => []
  }

  /** What releasing the primary button resets on the object being dragged:
      the grab offset of a slider or scroll area, and nothing on other objects. */
  function DragRelease(w: Widget, k: nat): (r: seq<Event>)
    ensures r != [] <==> w.HorSlider? || w.ScrollArea?
    ensures forall e :: e in r ==> e == Invoke(k, SetGrabOffset(0))
  {
    if w.HorSlider? || w.ScrollArea? then [Invoke(k, SetGrabOffset(0))] else []
  }
}

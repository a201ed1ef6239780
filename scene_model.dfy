/** The scene state of the sketchpad and the pure meaning of its two input
    callbacks.  Coordinates are normalised device coordinates, modelled as
    `real`.  The class in module Draw updates the same state in place and is
    proved to agree with the transition functions defined here. */
module SceneModel {

  /** A vertex of a stroke.  `isEraser` is always false in practice. */
  datatype Point = Point(x: real, y: real, isEraser: bool)

  /** A cursor position in normalised device coordinates. */
  datatype Ndc = Ndc(x: real, y: real)

  /** A cursor position in window pixels, origin top-left, y pointing down. */
  datatype Pixel = Pixel(x: real, y: real)

  /** The erase radius, in normalised units. */
  const EraseSize: real := 0.1

  /** GLFW's codes for the left mouse button and for the two button actions. */
  const MouseButtonLeft: int := 0
  const ActionRelease: int := 0
  const ActionPress: int := 1

  /** The open rectangle of the mode-toggle button. */
  const ToggleLeft: real := -0.9
  const ToggleRight: real := -0.6
  const ToggleBottom: real := 0.8
  const ToggleTop: real := 0.9

  // ---------------------------------------------------------------------
  // Coordinates

  /** Maps a window pixel onto [-1,1] x [-1,1], flipping the y axis. */
  function Normalize(px: real, py: real, width: int, height: int): Ndc
    requires width > 0 && height > 0
  {
    Ndc((px / width as real) * 2.0 - 1.0, 1.0 - (py / height as real) * 2.0)
  }

  /** The pixel that a normalised position corresponds to. */
  function PixelOf(c: Ndc, width: int, height: int): Pixel
    requires width > 0 && height > 0
  {
    Pixel((c.x + 1.0) / 2.0 * width as real, (1.0 - c.y) / 2.0 * height as real)
  }

  /** Dividing by a positive length and multiplying back are inverse, and
      the quotient lies in [0,1] exactly when the dividend lies in [0,w]. */
  lemma Scale(a: real, w: real)
    requires w > 0.0
    ensures (a / w) * w == a && (a * w) / w == a
    ensures (0.0 <= a <= w) <==> (0.0 <= a / w <= 1.0)
    ensures a == w ==> a / w == 1.0
  {
  }

  /** The window maps onto the square [-1,1] x [-1,1], its top-left corner to
      (-1,1) and its bottom-right corner to (1,-1). */
  lemma NormalizeOntoSquare(px: real, py: real, width: int, height: int)
    requires width > 0 && height > 0
    ensures var c := Normalize(px, py, width, height);
            && ((0.0 <= px <= width as real) <==> (-1.0 <= c.x <= 1.0))
            && ((0.0 <= py <= height as real) <==> (-1.0 <= c.y <= 1.0))
    ensures Normalize(0.0, 0.0, width, height) == Ndc(-1.0, 1.0)
    ensures Normalize(width as real, height as real, width, height) == Ndc(1.0, -1.0)
  {
    Scale(px, width as real);
    Scale(py, height as real);
    Scale(width as real, width as real);
    Scale(height as real, height as real);
  }

  /** PixelOf undoes Normalize. */
  lemma PixelOfNormalize(px: real, py: real, width: int, height: int)
    requires width > 0 && height > 0
    ensures PixelOf(Normalize(px, py, width, height), width, height) == Pixel(px, py)
  {
    Scale(px, width as real);
    Scale(py, height as real);
  }

  /** Normalize undoes PixelOf. */
  lemma NormalizePixelOf(c: Ndc, width: int, height: int)
    requires width > 0 && height > 0
    ensures Normalize(PixelOf(c, width, height).x, PixelOf(c, width, height).y, width, height) == c
  {
    Scale((c.x + 1.0) / 2.0, width as real);
    Scale((1.0 - c.y) / 2.0, height as real);
  }

  /** Normalisation is a bijection between pixels and normalised positions. */
  lemma NormalizeBijective(px: real, py: real, c: Ndc, width: int, height: int)
    requires width > 0 && height > 0
    ensures PixelOf(Normalize(px, py, width, height), width, height) == Pixel(px, py)
    ensures Normalize(PixelOf(c, width, height).x, PixelOf(c, width, height).y, width, height) == c
  {
    PixelOfNormalize(px, py, width, height);
    NormalizePixelOf(c, width, height);
  }

  /** Hit test of the mode-toggle button (strict on all four sides). */
  predicate InToggleButton(c: Ndc)
  {
    ToggleLeft < c.x < ToggleRight && ToggleBottom < c.y < ToggleTop
  }

  // ---------------------------------------------------------------------
  // Erasing

  /** Squared distance from a point to the cursor. */
  function Dist2(p: Point, c: Ndc): real
  {
    var dx, dy := p.x - c.x, p.y - c.y;
    dx * dx + dy * dy
  }

  /** The eraser at `c` takes a point strictly inside its radius. */
  predicate Erased(p: Point, c: Ndc)
  {
    Dist2(p, c) < EraseSize * EraseSize
  }

  /** `d` is the Euclidean distance from `p` to `c`: the non-negative
      square root of Dist2. */
  predicate IsDistance(d: real, p: Point, c: Ndc)
  {
    d >= 0.0 && d * d == Dist2(p, c)
  }

  /** Comparing squared distances decides the same as comparing the distance
      itself: for the distance `d`, `d < EraseSize` exactly when the point is
      erased. */
  lemma ErasedIffDistanceBelowRadius(p: Point, c: Ndc, d: real)
    requires IsDistance(d, p, c)
    ensures d < EraseSize <==> Erased(p, c)
  {
    if d < EraseSize {
      assert d * d <= d * EraseSize < EraseSize * EraseSize;
    } else {
      assert d * d >= d * EraseSize >= EraseSize * EraseSize;
    }
  }

  /** The eraser at `c` as a test on points. */
  function EraserAt(c: Ndc): Point -> bool
  {
    p => Erased(p, c)
  }

  /** The points of `s` that the test `erased` does not take, in their
      original order.  The lemmas below hold for every test; the erase step
      uses the eraser's, through Survivors. */
  function Without(s: seq<Point>, erased: Point -> bool): (r: seq<Point>)
    ensures |r| <= |s|
    ensures forall q :: q in r ==> q in s && !erased(q)
  {
    if s == [] then []
    else if erased(s[0]) then Without(s[1..], erased)
    else [s[0]] + Without(s[1..], erased)
  }

  /** The points an erase step at `c` keeps. */
  function Survivors(s: seq<Point>, c: Ndc): (r: seq<Point>)
    ensures forall q :: q in r ==> q in s && !Erased(q, c)
  {
    Without(s, EraserAt(c))
  }

  /** Filtering distributes over concatenation, which is what makes it
      order-preserving. */
  lemma {:induction false} WithoutAppend(a: seq<Point>, b: seq<Point>, erased: Point -> bool)
    ensures Without(a + b, erased) == Without(a, erased) + Without(b, erased)
  {
    if a != [] {
      assert (a + b)[1..] == a[1..] + b;
      WithoutAppend(a[1..], b, erased);
    } else {
      assert a + b == b;
    }
  }

  /** Every point the test does not take keeps all its occurrences, and
      every point it takes is gone. */
  lemma {:induction false} WithoutCount(s: seq<Point>, erased: Point -> bool, p: Point)
    ensures multiset(Without(s, erased))[p] == if erased(p) then 0 else multiset(s)[p]
  {
    if s != [] {
      WithoutCount(s[1..], erased, p);
      assert s == [s[0]] + s[1..];
    }
  }

  /** Filtering twice with the same test is filtering once. */
  lemma {:induction false} WithoutIdempotent(s: seq<Point>, erased: Point -> bool)
    ensures Without(Without(s, erased), erased) == Without(s, erased)
  {
    if s != [] {
      WithoutIdempotent(s[1..], erased);
    }
  }

  /** One step of an in-place filtering scan over `s`: with the first `k`
      points examined, the sequence `cur` holds their survivors `done`
      followed by the unexamined rest, and the next point to look at is
      `s[k]`.  Removing it (when it is taken) or stepping past it (when it is
      not) gives the same shape with `k + 1` points examined. */
  lemma ScanStep(s: seq<Point>, k: nat, erased: Point -> bool, done: seq<Point>, cur: seq<Point>, taken: bool)
    requires k < |s|
    requires done == Without(s[..k], erased) && cur == done + s[k..]
    requires taken == erased(s[k])
    ensures |cur| > |done| && cur[|done|] == s[k]
    ensures taken ==>
              && Without(s[..k + 1], erased) == done
              && cur[..|done|] + cur[|done| + 1..] == done + s[k + 1..]
    ensures !taken ==>
              && Without(s[..k + 1], erased) == done + [s[k]]
              && cur == (done + [s[k]]) + s[k + 1..]
  {
    assert s[..k + 1] == s[..k] + [s[k]];
    WithoutAppend(s[..k], [s[k]], erased);
    assert Without([s[k]], erased) == if erased(s[k]) then [] else [s[k]] by {
      assert [s[k]][1..] == [];
    }
    assert s[k..] == [s[k]] + s[k + 1..];
    assert cur[..|done|] == done;
    assert cur[|done| + 1..] == s[k + 1..];
  }

  /** An erase step keeps exactly the points at distance at least EraseSize,
      with their multiplicities; in particular a point exactly on the radius
      is kept and no point strictly inside it remains. */
  lemma SurvivorsCount(s: seq<Point>, c: Ndc, p: Point)
    ensures multiset(Survivors(s, c))[p] == if Erased(p, c) then 0 else multiset(s)[p]
    ensures Dist2(p, c) == EraseSize * EraseSize ==> multiset(Survivors(s, c))[p] == multiset(s)[p]
  {
    WithoutCount(s, EraserAt(c), p);
  }

  /** An erase step keeps the relative order of what it keeps: erasing a
      concatenation erases each part. */
  lemma SurvivorsAppend(a: seq<Point>, b: seq<Point>, c: Ndc)
    ensures Survivors(a + b, c) == Survivors(a, c) + Survivors(b, c)
  {
    WithoutAppend(a, b, EraserAt(c));
  }

  /** A second erase step at the same position removes nothing more. */
  lemma SurvivorsIdempotent(s: seq<Point>, c: Ndc)
    ensures Survivors(Survivors(s, c), c) == Survivors(s, c)
  {
    WithoutIdempotent(s, EraserAt(c));
  }

  // ---------------------------------------------------------------------
  // Scene state and the two input callbacks

  /** The program's global scene state. */
  datatype SceneState = SceneState(
    points: seq<Point>,         // committed strokes
    currentStroke: seq<Point>,  // the stroke being drawn
    isDrawing: bool,            // draw mode (true) or erase mode (false)
    isMousePressed: bool,
    cursor: Ndc)

  /** The state at program start (C++ zero-initialises the cursor). */
  function Initial(): (s: SceneState)
    ensures Inv(s)
  {
    SceneState([], [], true, false, Ndc(0.0, 0.0))
  }

  /** What the callbacks maintain: a stroke is only in progress while the
      button is held in draw mode, and no stored point is an eraser point. */
  predicate Inv(s: SceneState)
  {
    && (!s.isMousePressed ==> s.currentStroke == [])
    && (!s.isDrawing ==> s.currentStroke == [])
    && (forall p :: p in s.points ==> !p.isEraser)
    && (forall p :: p in s.currentStroke ==> !p.isEraser)
  }

  /** The size argument is only consulted by a left-button press. */
  predicate MouseButtonDefined(button: int, action: int, width: int, height: int)
  {
    button == MouseButtonLeft && action == ActionPress ==> width > 0 && height > 0
  }

  /** The mouse-button callback.  The pixel position and window size are what
      the callback queries from the window on a press. */
  function OnMouseButton(s: SceneState, button: int, action: int,
                         px: real, py: real, width: int, height: int): SceneState
    requires MouseButtonDefined(button, action, width, height)
  {
    if button != MouseButtonLeft then s
    else if action == ActionPress then
      var c := Normalize(px, py, width, height);
      s.(isMousePressed := true, currentStroke := [],
         isDrawing := if InToggleButton(c) then !s.isDrawing else s.isDrawing)
    else if action == ActionRelease then
      s.(isMousePressed := false, points := s.points + s.currentStroke, currentStroke := [])
    else s
  }

  /** The cursor-position callback. */
  function OnCursorPos(s: SceneState, px: real, py: real, width: int, height: int): SceneState
    requires width > 0 && height > 0
  {
    var c := Normalize(px, py, width, height);
    var moved := s.(cursor := c);
    if !s.isMousePressed then moved
    else if s.isDrawing then moved.(currentStroke := s.currentStroke + [Point(c.x, c.y, false)])
    else moved.(points := Survivors(s.points, c))
  }

  /** Both callbacks keep the invariant. */
  lemma OnMouseButtonKeepsInv(s: SceneState, button: int, action: int,
                              px: real, py: real, width: int, height: int)
    requires MouseButtonDefined(button, action, width, height)
    requires Inv(s)
    ensures Inv(OnMouseButton(s, button, action, px, py, width, height))
  {
  }

  lemma OnCursorPosKeepsInv(s: SceneState, px: real, py: real, width: int, height: int)
    requires width > 0 && height > 0
    requires Inv(s)
    ensures Inv(OnCursorPos(s, px, py, width, height))
  {
  }

  /** Two presses on the toggle button, with a release between them, restore
      the original mode and leave the committed points alone. */
  lemma ToggleTwiceRestoresMode(s: SceneState, px: real, py: real, qx: real, qy: real,
                                width: int, height: int)
    requires width > 0 && height > 0
    requires InToggleButton(Normalize(px, py, width, height))
    ensures var once := OnMouseButton(s, MouseButtonLeft, ActionPress, px, py, width, height);
            var released := OnMouseButton(once, MouseButtonLeft, ActionRelease, qx, qy, width, height);
            var twice := OnMouseButton(released, MouseButtonLeft, ActionPress, px, py, width, height);
            && once.isDrawing == !s.isDrawing
            && twice.isDrawing == s.isDrawing
            && twice.points == s.points
  {
  }

  /** An erase move repeated at the same position changes nothing further. */
  lemma EraseMoveIdempotent(s: SceneState, px: real, py: real, width: int, height: int)
    requires width > 0 && height > 0
    requires s.isMousePressed && !s.isDrawing
    ensures var once := OnCursorPos(s, px, py, width, height);
            OnCursorPos(once, px, py, width, height) == once
  {
    SurvivorsIdempotent(s.points, Normalize(px, py, width, height));
  }

  // ---------------------------------------------------------------------
  // Runs of events

  /** An input event as the window delivers it, with the window size at that time. */
  datatype Event =
    | ButtonEvent(button: int, action: int, px: real, py: real, width: int, height: int)
    | CursorEvent(px: real, py: real, width: int, height: int)

  predicate EventDefined(e: Event)
  {
    match e
    case ButtonEvent(button, action, _, _, width, height) => MouseButtonDefined(button, action, width, height)
    case CursorEvent(_, _, width, height) => width > 0 && height > 0
  }

  function Step(s: SceneState, e: Event): SceneState
    requires EventDefined(e)
  {
    match e
    case ButtonEvent(button, action, px, py, width, height) => OnMouseButton(s, button, action, px, py, width, height)
    case CursorEvent(px, py, width, height) => OnCursorPos(s, px, py, width, height)
  }

  function Run(s: SceneState, events: seq<Event>): SceneState
    requires forall e :: e in events ==> EventDefined(e)
    decreases |events|
  {
    if events == [] then s else Run(Step(s, events[0]), events[1..])
  }

  /** Every state reachable from the initial state satisfies the invariant. */
  lemma {:induction false} RunKeepsInv(s: SceneState, events: seq<Event>)
    requires forall e :: e in events ==> EventDefined(e)
    requires Inv(s)
    ensures Inv(Run(s, events))
    decreases |events|
  {
    if events != [] {
      var e := events[0];
      assert e in events;
      if e.ButtonEvent? {
        OnMouseButtonKeepsInv(s, e.button, e.action, e.px, e.py, e.width, e.height);
      } else {
        OnCursorPosKeepsInv(s, e.px, e.py, e.width, e.height);
      }
      RunKeepsInv(Step(s, e), events[1..]);
    }
  }

  lemma ReachableStatesKeepInv(events: seq<Event>)
    requires forall e :: e in events ==> EventDefined(e)
    ensures Inv(Run(Initial(), events))
  {
    RunKeepsInv(Initial(), events);
  }

  // ---------------------------------------------------------------------
  // A whole drag in draw mode

  /** The cursor moves of a drag, all in a window of the given size. */
  function Moves(s: SceneState, path: seq<Pixel>, width: int, height: int): SceneState
    requires width > 0 && height > 0
    decreases |path|
  {
    if path == [] then s
    else Moves(OnCursorPos(s, path[0].x, path[0].y, width, height), path[1..], width, height)
  }

  /** The stroke points a path produces: each pixel normalised, not an eraser point. */
  function StrokeOf(path: seq<Pixel>, width: int, height: int): (r: seq<Point>)
    requires width > 0 && height > 0
    ensures |r| == |path|
    ensures forall i :: 0 <= i < |path| ==>
      r[i] == Point(Normalize(path[i].x, path[i].y, width, height).x,
                    Normalize(path[i].x, path[i].y, width, height).y, false)
  {
    if path == [] then []
    else
      var c := Normalize(path[0].x, path[0].y, width, height);
      [Point(c.x, c.y, false)] + StrokeOf(path[1..], width, height)
  }

  /** Moves with the button held in draw mode extend the current stroke by
      exactly the path's points and touch nothing else but the cursor. */
  lemma {:induction false} DrawMovesAppend(s: SceneState, path: seq<Pixel>, width: int, height: int)
    requires width > 0 && height > 0
    requires s.isMousePressed && s.isDrawing
    ensures var t := Moves(s, path, width, height);
            && t.currentStroke == s.currentStroke + StrokeOf(path, width, height)
            && t.points == s.points
            && t.isMousePressed && t.isDrawing
    decreases |path|
  {
    if path != [] {
      var next := OnCursorPos(s, path[0].x, path[0].y, width, height);
      DrawMovesAppend(next, path[1..], width, height);
      var c := Normalize(path[0].x, path[0].y, width, height);
      assert StrokeOf(path, width, height) == [Point(c.x, c.y, false)] + StrokeOf(path[1..], width, height);
    }
  }

  /** Press outside the toggle button in draw mode, drag along a path, release:
      the committed points gain exactly the path's points, in order, and no
      stroke is left in progress. */
  lemma DragCommitsStroke(s: SceneState, start: Pixel, path: seq<Pixel>, stop: Pixel,
                          width: int, height: int)
    requires width > 0 && height > 0
    requires s.isDrawing
    requires !InToggleButton(Normalize(start.x, start.y, width, height))
    ensures var pressed := OnMouseButton(s, MouseButtonLeft, ActionPress, start.x, start.y, width, height);
            var dragged := Moves(pressed, path, width, height);
            var released := OnMouseButton(dragged, MouseButtonLeft, ActionRelease, stop.x, stop.y, width, height);
            && released.points == s.points + StrokeOf(path, width, height)
            && released.currentStroke == []
            && !released.isMousePressed && released.isDrawing
  {
    var pressed := OnMouseButton(s, MouseButtonLeft, ActionPress, start.x, start.y, width, height);
    DrawMovesAppend(pressed, path, width, height);
  }
}

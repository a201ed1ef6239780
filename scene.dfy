/** The program's global scene state as an object, and the two input
    callbacks as methods that update it in place.  Each method is proved to
    agree with the transition function of module SceneModel. */
module Draw {
  import opened SceneModel

  class Scene {
    var points: seq<Point>         // committed strokes
    var currentStroke: seq<Point>  // the stroke being drawn
    var isDrawing: bool
    var isMousePressed: bool
    var cursorX: real
    var cursorY: real

    /** The abstract value of the scene. */
    function Model(): SceneState
      reads this
    {
      SceneState(points, currentStroke, isDrawing, isMousePressed, Ndc(cursorX, cursorY))
    }

    ghost predicate Valid()
      reads this
    {
      Inv(Model())
    }

    /** The initial values of the globals. */
    constructor ()
      ensures Model() == Initial()
      ensures Valid()
    {
      points := [];
      currentStroke := [];
      isDrawing := true;
      isMousePressed := false;
      cursorX, cursorY := 0.0, 0.0;
    }

    /** The mouse-button callback.  `px`, `py` is the cursor position and
        `width`, `height` the window size that a press queries. */
    method MouseButton(button: int, action: int, px: real, py: real, width: int, height: int)
      requires MouseButtonDefined(button, action, width, height)
      modifies this
      ensures Model() == OnMouseButton(old(Model()), button, action, px, py, width, height)
      // a left press starts an empty stroke and toggles the mode on the button
      ensures button == MouseButtonLeft && action == ActionPress ==>
        && isMousePressed && currentStroke == [] && points == old(points)
        && (isDrawing != old(isDrawing) <==> InToggleButton(Normalize(px, py, width, height)))
      // a left release commits the stroke after the existing points
      ensures button == MouseButtonLeft && action == ActionRelease ==>
        && !isMousePressed && currentStroke == []
        && points == old(points) + old(currentStroke)
        && isDrawing == old(isDrawing)
      // every other event changes nothing
      ensures button != MouseButtonLeft || (action != ActionPress && action != ActionRelease) ==>
        Model() == old(Model())
      ensures cursorX == old(cursorX) && cursorY == old(cursorY)
      ensures old(Valid()) ==> Valid()
    {
      if button == MouseButtonLeft {
        if action == ActionPress {
          isMousePressed := true;
          currentStroke := [];
          var c := Normalize(px, py, width, height);
          if InToggleButton(c) {
            isDrawing := !isDrawing;
          }
        } else if action == ActionRelease {
          isMousePressed := false;
          points := points + currentStroke;
          currentStroke := [];
        }
      }
    }

    /** The cursor-position callback for a cursor at pixel (`px`, `py`) of a
        `width` by `height` window. */
    method CursorPosition(px: real, py: real, width: int, height: int)
      requires width > 0 && height > 0
      modifies this
      ensures Model() == OnCursorPos(old(Model()), px, py, width, height)
      ensures Ndc(cursorX, cursorY) == Normalize(px, py, width, height)
      ensures isDrawing == old(isDrawing) && isMousePressed == old(isMousePressed)
      // button up: only the cursor moves
      ensures !isMousePressed ==> points == old(points) && currentStroke == old(currentStroke)
      // draw mode: one point appended to the stroke
      ensures isMousePressed && isDrawing ==>
        && currentStroke == old(currentStroke) + [Point(cursorX, cursorY, false)]
        && points == old(points)
      // erase mode: the committed points filtered by distance to the cursor
      ensures isMousePressed && !isDrawing ==>
        && points == Survivors(old(points), Ndc(cursorX, cursorY))
        && currentStroke == old(currentStroke)
      ensures old(Valid()) ==> Valid()
    {
      var c := Normalize(px, py, width, height);
      cursorX := c.x;
      cursorY := c.y;
      if isMousePressed {
        if isDrawing {
          currentStroke := currentStroke + [Point(cursorX, cursorY, false)];
        } else {
          EraseNear(Ndc(cursorX, cursorY));
        }
      }
    }

    /** The erase loop: walks the committed points front to back, removing
        each one within the erase radius of `c` in place. */
    method EraseNear(c: Ndc)
      modifies this`points
      ensures points == Survivors(old(points), c)
    {
      ghost var original := points;
      ghost var k := 0;      // how many of the original points have been examined
      ghost var kept := [];  // the survivors among them
      var i := 0;
      while i < |points|
        invariant 0 <= k <= |original|
        invariant kept == Without(original[..k], EraserAt(c))
        invariant points == kept + original[k..]
        invariant i == |kept|
        decreases |points| - i
      {
        assert |points| == i + (|original| - k);
        var erased := IsErased(points[i], c);
        assert erased == EraserAt(c)(original[k]);
        ScanStep(original, k, EraserAt(c), kept, points, erased);
        if erased {
          points := points[..i] + points[i + 1..];
        } else {
          i := i + 1;
          kept := kept + [original[k]];
        }
        k := k + 1;
      }
      assert original[..k] == original;
    }

    /** The distance test of the erase loop.  It compares squared lengths;
        the result is that of comparing the distance itself with EraseSize. */
    static method IsErased(p: Point, c: Ndc) returns (erased: bool)
      ensures erased == Erased(p, c)
      ensures forall d :: IsDistance(d, p, c) ==> (erased <==> d < EraseSize)
    {
      var dx := p.x - c.x;
      var dy := p.y - c.y;
      erased := dx * dx + dy * dy < EraseSize * EraseSize;
      forall d | IsDistance(d, p, c)
        ensures erased <==> d < EraseSize
      {
        ErasedIffDistanceBelowRadius(p, c, d);
      }
    }
  }
}

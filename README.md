# VectorDraw scene state, in Dafny

VectorDraw is a small freehand sketchpad. A window captures mouse drags as
strokes. A toggle button in the top-left corner switches between draw mode
and erase mode. In erase mode, dragging removes every committed point near
the cursor. The drawing surface is the largest square that fits the window,
centred in it.

This project models the program's state and the three callbacks that change
it or compute from it. The GLFW window and the OpenGL renderer are not part
of the model.

- `viewport.dfy`, module `Viewport`: the square-viewport arithmetic of the
  framebuffer-resize callback. C++ integer division, which truncates toward
  zero, is written out as `TruncHalf`.
- `scene_model.dfy`, module `SceneModel`: the pure meaning of the scene.
  - `Point`, cursor normalisation (`Normalize`) and its inverse `PixelOf`.
  - The toggle-button hit test and the erase test.
  - The order-preserving filter that an erase step performs (`Without`,
    `Survivors`).
  - The scene state as a value (`SceneState`), the two input callbacks as
    transition functions (`OnMouseButton`, `OnCursorPos`) and runs of input
    events (`Run`).
  - Lemmas about all of these.
- `scene.dfy`, module `Draw`: class `Scene`. Its fields are the program's
  globals: `points`, `currentStroke`, `isDrawing`, `isMousePressed`,
  `cursorX` and `cursorY`. Its methods `MouseButton` and `CursorPosition` are
  the two callbacks and update those fields in place. `EraseNear` is the
  iterator-erase loop, proved equal to the pure filter. Each callback method
  is proved to agree with its transition function, so the lemmas of
  `SceneModel` hold for the object as well.

The cursor position and window size that the callbacks query from GLFW are
method parameters. The erase radius (`EraseSize`, 0.1) and the toggle
rectangle (-0.9, -0.6) x (0.8, 0.9) are module constants. GLFW's codes are
constants too: left button 0, release 0, press 1.

Where the source and its description differ, the model follows the source:
- A press on the toggle button still starts a drag. It sets `isMousePressed`
  and clears the current stroke, just like any other press. Moving the mouse
  before the release therefore draws or erases in the new mode.
- The source does not skip the stroke for a toggle press. It clears the
  stroke on every left press.

## Model

| member | source | states |
|---|---|---|
| `Viewport.SquareViewport` | draw.cpp:17-21 | The viewport is a square whose side is min(width, height). Both offsets are non-negative and at least one is zero. 2·offset + side never exceeds the dimension and falls short of it by at most one pixel, so the square is centred. Holds for every pair of non-negative sizes (and for all sizes over unbounded integers). |
| `Viewport.TruncHalf` | draw.cpp:20 | C++ `n / 2` truncates toward zero: for n ≥ 0 the result q has 0 ≤ 2q ≤ n ≤ 2q + 1, and symmetrically for n < 0. |
| `Viewport.SquareViewportIsLargest` | draw.cpp:19 | Every square that fits both dimensions is no larger than the chosen one. |
| `Viewport.SquareViewportNonEmpty` | draw.cpp:19 | A window of positive size gets a viewport of positive side. |
| `SceneModel.Normalize` | draw.cpp:54-55 | The normalisation `(x/w*2-1, 1-y/h*2)` of both callbacks (also draw.cpp:35-36), for positive window sizes. What it means is stated by `NormalizeOntoSquare` and `NormalizeBijective`. |
| `SceneModel.InToggleButton` | draw.cpp:39 | The hit test: four strict comparisons, -0.9 < x < -0.6 and 0.8 < y < 0.9. The press handler flips the mode exactly when it holds (`Draw.Scene.MouseButton`). |
| `SceneModel.Initial` | draw.cpp:10-15 | The initial globals: no points, no stroke, draw mode, button up, cursor (0,0). This state satisfies the scene invariant. |
| `SceneModel.NormalizeOntoSquare` | draw.cpp:54-55 | Normalisation `(x/w*2-1, 1-y/h*2)` maps pixel (0,0) to (-1,1) and pixel (w,h) to (1,-1). A coordinate lies inside the window exactly when its normalised value lies in [-1,1]. |
| `SceneModel.PixelOfNormalize` | draw.cpp:54-55 | Converting a normalised pixel back gives the original pixel. |
| `SceneModel.NormalizePixelOf` | draw.cpp:54-55 | Normalising the pixel of a normalised position gives that position back. |
| `SceneModel.NormalizeBijective` | draw.cpp:35-36 | Normalisation is a bijection between window pixels and normalised positions, in both directions. The press handler uses the same formula. |
| `SceneModel.ErasedIffDistanceBelowRadius` | draw.cpp:66-68 | For the non-negative root d of dx²+dy², `d < eraseSize` holds exactly when dx²+dy² < eraseSize². So the squared comparison decides what the source's `sqrt` comparison decides. |
| `SceneModel.Without` | draw.cpp:65-73 | The filter keeps only elements the test does not take, all of them from the input, and never grows the sequence. |
| `SceneModel.WithoutAppend` | draw.cpp:65-73 | Filtering a concatenation filters each part, so the filter keeps relative order. |
| `SceneModel.WithoutCount` | draw.cpp:65-73 | An element the test takes has no occurrence left. Any other element keeps every occurrence. |
| `SceneModel.WithoutIdempotent` | draw.cpp:65-73 | Filtering twice with the same test is the same as filtering once. |
| `SceneModel.ScanStep` | draw.cpp:65-73 | One iteration of the iterator loop: `erase(it)` on a taken point, or `++it` on a kept one, keeps the invariant "survivors of the examined prefix followed by the unexamined rest". |
| `SceneModel.Survivors` | draw.cpp:65-73 | What the erase loop leaves: the points of the list that the eraser at the cursor does not take. Every remaining point came from the list and lies at distance at least `eraseSize`. |
| `SceneModel.SurvivorsCount` | draw.cpp:68-69 | An erase step removes every point strictly within `eraseSize` of the cursor. It keeps every other point with all its occurrences, including a point exactly on the radius. |
| `SceneModel.SurvivorsAppend` | draw.cpp:65-73 | An erase step keeps the surviving points in their original order. |
| `SceneModel.SurvivorsIdempotent` | draw.cpp:65-73 | A second erase step at the same cursor removes nothing more. |
| `SceneModel.OnMouseButtonKeepsInv` | draw.cpp:23-49 | The mouse-button callback keeps the scene invariant. The invariant says: no stroke in progress unless the button is held, none in erase mode, and no stored point is an eraser point. |
| `SceneModel.OnCursorPosKeepsInv` | draw.cpp:51-76 | The cursor-position callback keeps the same invariant. |
| `SceneModel.RunKeepsInv` | draw.cpp:23-76 | Any sequence of button and cursor events keeps the invariant. |
| `SceneModel.ReachableStatesKeepInv` | draw.cpp:10-13 | Every state reachable from the initial globals satisfies the invariant. The initial globals are: no points, draw mode, button up. |
| `SceneModel.ToggleTwiceRestoresMode` | draw.cpp:39-41 | From any state, a press on the toggle button flips the mode. A second such press, after a release, restores it. The committed points are untouched. |
| `SceneModel.EraseMoveIdempotent` | draw.cpp:63-73 | Repeating an erase-mode move at the same position changes nothing further. |
| `SceneModel.StrokeOf` | draw.cpp:62 | The stroke a drag path produces has one point per cursor event, equal to the normalised cursor, with `isEraser` false. |
| `SceneModel.DrawMovesAppend` | draw.cpp:60-62 | Moves with the button held in draw mode extend the current stroke by exactly the path's points, in order. The committed points and both flags are unchanged. |
| `SceneModel.DragCommitsStroke` | draw.cpp:23-62 | Press outside the toggle in draw mode, drag along a path, release: the committed points gain exactly the path's points, in order, and no stroke remains in progress. |
| `Draw.Scene.constructor` | draw.cpp:10-15 | The globals start with no points, no stroke, draw mode, button up and cursor (0,0). The invariant holds. |
| `Draw.Scene.MouseButton` | draw.cpp:23-49 | A left press sets `isMousePressed`, empties `currentStroke` and leaves `points` alone. It flips `isDrawing` exactly when the normalised position is strictly inside the toggle rectangle. A left release clears `isMousePressed`, sets `points` to old `points` followed by old `currentStroke`, and empties `currentStroke`. Any other button or action changes nothing. The cursor never changes, the new state is `OnMouseButton` of the old, and the invariant is kept. |
| `Draw.Scene.CursorPosition` | draw.cpp:51-76 | Every move stores the normalised cursor and never changes the flags. With the button up nothing else changes. In draw mode exactly one point is appended to `currentStroke`: the cursor, with `isEraser` false. In erase mode `points` becomes `Survivors` of the old points and `currentStroke` is unchanged. The new state is `OnCursorPos` of the old, and the invariant is kept. |
| `Draw.Scene.EraseNear` | draw.cpp:65-73 | The in-place erase loop leaves `points` equal to the pure filter `Survivors` of the old points. |
| `Draw.Scene.IsErased` | draw.cpp:66-68 | The loop's test compares dx²+dy² with `eraseSize`². Its result is that of the source's test: for the Euclidean distance d from the point to the cursor (d ≥ 0, d² = dx²+dy²), it is true exactly when d < `eraseSize`. It also equals `Erased`, which ties the loop to `Survivors`. |

## Left out

- Rendering (`render`, `renderCircle`, draw.cpp:78-167): immediate-mode OpenGL calls and `cosf`/`sinf`. They change no scene state and need a graphics context.
- `main` (draw.cpp:169-196): GLFW initialisation, window creation, callback registration and the event loop. These are I/O plumbing. The model's `Run` takes their place as a sequence of events.
- `glfwGetCursorPos`, `glfwGetWindowSize` and `glViewport`: foreign library calls. Their values are parameters or results. The GLFW constants are GLFW's documented codes, because GLFW's header is not part of this model.
- Floating point: coordinates are `real`. The model does not capture rounding of `double` and `float`, the narrowing `static_cast<float>` of the stored points, or `sqrt`. `ErasedIffDistanceBelowRadius` shows why the squared test decides what `sqrt` decides over the reals. `eraseSize` is taken as exactly 0.1, not the float nearest to 0.1. The toggle test compares a `double` with the `float` literals `-0.9f` and so on, and those literals are taken as the exact decimals.
- Zero window sizes: normalisation divides by the window width and height, and the model requires both to be positive (`Normalize`, `CursorPosition`, and `MouseButton` on a left press). The source would produce infinities or NaN there.
- Viewport.SquareViewport: sizes are unbounded integers. The model does not capture 32-bit `int` overflow of `width - squareSize`, which can only happen for negative sizes near INT_MIN, never for the non-negative sizes GLFW reports.
- Framebuffer-resize events change no scene state, so `Event` has no case for them. Their arithmetic is `Viewport.SquareViewport`.
- Single-call properties of the transition functions are stated on the class methods, which the `## Model` table lists. `OnMouseButton` and `OnCursorPos` carry no contract of their own: each method's `ensures` ties the method to them.

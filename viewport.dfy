/** The viewport arithmetic of the framebuffer-resize callback: the drawing
    surface is the largest square that fits the framebuffer, centred in it. */
module Viewport {

  /** The four arguments handed to glViewport: lower-left corner and size. */
  datatype Rect = Rect(x: int, y: int, width: int, height: int)

  /** C++ `n / 2` on `int`, which truncates toward zero (Dafny's `/` is Euclidean). */
  function TruncHalf(n: int): (q: int)
    ensures n >= 0 ==> 0 <= 2 * q <= n && n - 2 * q <= 1
    ensures n < 0 ==> n <= 2 * q <= 0 && 2 * q - n <= 1
  {
    if n >= 0 then n / 2 else -((-n) / 2)
  }

  /** The viewport chosen for a framebuffer of `width` by `height` pixels. */
  function SquareViewport(width: int, height: int): (v: Rect)
    // a square whose side is the smaller dimension
    ensures v.width == v.height
    ensures v.width <= width && v.width <= height
    ensures v.width == width || v.width == height
    // it sits inside the framebuffer, touching two opposite edges
    ensures v.x >= 0 && v.y >= 0
    ensures v.x == 0 || v.y == 0
    ensures 2 * v.x + v.width <= width && 2 * v.y + v.height <= height
    // and is centred: the margins on either side differ by at most one pixel
    ensures width - (2 * v.x + v.width) <= 1 && height - (2 * v.y + v.height) <= 1
  {
    var squareSize := if width < height then width else height;
    Rect(TruncHalf(width - squareSize), TruncHalf(height - squareSize), squareSize, squareSize)
  }

  /** No larger square fits: every square that fits both dimensions is at most
      as large as the chosen one. */
  lemma SquareViewportIsLargest(width: int, height: int, side: int)
    requires side <= width && side <= height
    ensures side <= SquareViewport(width, height).width
  {
  }

  /** For a framebuffer that is not degenerate the viewport is non-empty. */
  lemma SquareViewportNonEmpty(width: int, height: int)
    requires width > 0 && height > 0
    ensures SquareViewport(width, height).width > 0
  {
  }
}

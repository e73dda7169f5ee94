/** Integer rectangles on the fixed 1600x900 game canvas, the bounds check
    shared by the bird and the bombs, and the overlap test used for
    collisions. */
module Geometry {

  const WIDTH: int := 1600
  const HEIGHT: int := 900

  /** An axis-aligned integer rectangle: left/top corner and a size. */
  datatype Rect = Rect(left: int, top: int, width: nat, height: nat)
  {
    function Right(): int { left + width }
    function Bottom(): int { top + height }

    /** The centre as the game library reports it: the half size rounded down. */
    function CenterX(): int { left + width / 2 }
    function CenterY(): int { top + height / 2 }

    /** Translation by (dx, dy); the size is kept. */
    function Move(dx: int, dy: int): Rect
    {
      Rect(left + dx, top + dy, width, height)
    }

    /** Placing the rectangle so that its centre is (cx, cy). Reading the
        centre back gives exactly the point that was set. */
    function WithCenter(cx: int, cy: int): (r: Rect)
      ensures r.CenterX() == cx && r.CenterY() == cy
      ensures r.width == width && r.height == height
    {
      Rect(cx - width / 2, cy - height / 2, width, height)
    }
  }

  /** Whether a rectangle stays on the canvas: the first component for the
      horizontal axis, the second for the vertical one; true means inside. */
  function CheckBound(r: Rect): (b: (bool, bool))
    ensures b.0 <==> 0 <= r.left && r.Right() <= WIDTH
    ensures b.1 <==> 0 <= r.top && r.Bottom() <= HEIGHT
  {
    var yoko := if r.left < 0 || WIDTH < r.Right() then false else true;
    var tate := if r.top < 0 || HEIGHT < r.Bottom() then false else true;
    (yoko, tate)
  }

  /** Both axes pass the bounds check. */
  predicate InBounds(r: Rect)
  {
    CheckBound(r) == (true, true)
  }

  /** A point of the closed canvas [0, WIDTH] x [0, HEIGHT]. */
  predicate OnCanvas(x: int, y: int)
  {
    0 <= x <= WIDTH && 0 <= y <= HEIGHT
  }

  /** The bounds check passes on both axes exactly when every point of the
      closed rectangle lies on the closed canvas. */
  lemma InBoundsIffAllPointsOnCanvas(r: Rect)
    ensures InBounds(r) <==>
            forall x, y :: r.left <= x <= r.Right() && r.top <= y <= r.Bottom() ==> OnCanvas(x, y)
  {
    if forall x, y :: r.left <= x <= r.Right() && r.top <= y <= r.Bottom() ==> OnCanvas(x, y) {
      assert OnCanvas(r.left, r.top);
      assert OnCanvas(r.Right(), r.Bottom());
    }
  }

  /** Strict overlap of two rectangles: they share interior area. */
  predicate Overlaps(a: Rect, b: Rect)
  {
    a.left < b.Right() && b.left < a.Right() && a.top < b.Bottom() && b.top < a.Bottom()
  }

  /** The unit pixel cell with top-left corner (x, y) belongs to r. */
  predicate Covers(r: Rect, x: int, y: int)
  {
    r.left <= x < r.Right() && r.top <= y < r.Bottom()
  }

  /** A rectangle of positive size on both axes. */
  predicate NonEmpty(r: Rect)
  {
    r.width > 0 && r.height > 0
  }

  /** Two rectangles that share a pixel cell overlap, and two non-empty
      rectangles overlap only if they share one; the test is symmetric. */
  lemma OverlapsIffSharedCell(a: Rect, b: Rect)
    ensures (exists x, y :: Covers(a, x, y) && Covers(b, x, y)) ==> Overlaps(a, b)
    ensures NonEmpty(a) && NonEmpty(b) ==>
            (Overlaps(a, b) <==> exists x, y :: Covers(a, x, y) && Covers(b, x, y))
    ensures Overlaps(a, b) <==> Overlaps(b, a)
  {
    if Overlaps(a, b) && NonEmpty(a) && NonEmpty(b) {
      var x := if a.left < b.left then b.left else a.left;
      var y := if a.top < b.top then b.top else a.top;
      assert Covers(a, x, y) && Covers(b, x, y);
    }
  }

  /** A per-axis step of the game: each component is -5, 0 or 5. */
  predicate IsStep(d: (int, int))
  {
    (d.0 == -5 || d.0 == 0 || d.0 == 5) && (d.1 == -5 || d.1 == 0 || d.1 == 5)
  }

  /** One of the eight non-zero steps: the facing of the bird and the
      velocities of bombs and beams. */
  predicate IsDirection(d: (int, int))
  {
    IsStep(d) && d != (0, 0)
  }
}

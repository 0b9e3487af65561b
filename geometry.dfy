/** Axis-aligned boxes as the Tk canvas reports them: (x0, y0) is the
    top-left corner and (x1, y1) the bottom-right one, y growing downwards. */
module Geometry {

  datatype Box = Box(x0: int, y0: int, x1: int, y1: int)

  /** The box moved by (dx, dy), as `canvas.move` moves an item. */
  function Translate(b: Box, dx: int, dy: int): Box
  {
    Box(b.x0 + dx, b.y0 + dy, b.x1 + dx, b.y1 + dy)
  }

  /** Closed-interval intersection: boxes that only touch overlap, as they
      do for the canvas's overlap query. */
  predicate Overlaps(a: Box, b: Box)
  {
    a.x0 <= b.x1 && b.x0 <= a.x1 && a.y0 <= b.y1 && b.y0 <= a.y1
  }

  /** The "side hit" test of the bounce rule: the ball sticks out of the
      item horizontally and also vertically. */
  predicate SideHit(ball: Box, o: Box)
  {
    (ball.x0 < o.x0 || ball.x1 > o.x1) && (ball.y1 < o.y1 || ball.y0 > o.y0)
  }

  /** The ball is found overlapping itself, but never side-hits itself. */
  lemma BallAgainstItself(ball: Box)
    requires ball.x0 <= ball.x1 && ball.y0 <= ball.y1
    ensures Overlaps(ball, ball) && !SideHit(ball, ball)
  {
  }
}

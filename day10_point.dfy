/// Day10/Point.cs: a light point with a position and a constant velocity.
module Day10Point {
  /// `Point`: position `(x, y)` and velocity `(dx, dy)`.
  datatype Point = Point(x: int, y: int, dx: int, dy: int)

  /// `Next`: the point one second later.
  function Next(p: Point): (r: Point)
    ensures r.dx == p.dx && r.dy == p.dy
    ensures r.x - p.x == p.dx && r.y - p.y == p.dy
  {
    Point(p.x + p.dx, p.y + p.dy, p.dx, p.dy)
  }

  /// `Next` applied `k` times.
  function Moved(p: Point, k: int): Point
    decreases k
  {
    if k <= 0 then p else Next(Moved(p, k - 1))
  }

  /// After `k` seconds a point has moved `k` times its velocity, which it
  /// keeps.
  lemma {:induction false} MovedClosedForm(p: Point, k: nat)
    ensures Moved(p, k) == Point(p.x + k * p.dx, p.y + k * p.dy, p.dx, p.dy)
  {
    if k > 0 {
      MovedClosedForm(p, k - 1);
      assert (k - 1) * p.dx + p.dx == k * p.dx;
      assert (k - 1) * p.dy + p.dy == k * p.dy;
    }
  }

  /// Moving `j` seconds and then `k` more is moving `j + k` seconds.
  lemma {:induction false} MovedAdd(p: Point, j: nat, k: nat)
    ensures Moved(Moved(p, j), k) == Moved(p, j + k)
  {
    MovedClosedForm(p, j);
    MovedClosedForm(Moved(p, j), k);
    MovedClosedForm(p, j + k);
    assert j * p.dx + k * p.dx == (j + k) * p.dx;
    assert j * p.dy + k * p.dy == (j + k) * p.dy;
  }

  /// The test's point at (3, 9) moving by (1, -2) is at (6, 3) after three
  /// moves.
  lemma MoveExample(p: Point, k: int)
    requires p == Point(3, 9, 1, -2) && k == 3
    ensures Moved(p, k) == Point(6, 3, 1, -2)
  {
    MovedClosedForm(p, k);
  }
}

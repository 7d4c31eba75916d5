/// Day10/Map.cs: the bounding box of a set of points.
module Day10Map {
  import opened Day10Point

  /// The running `(width, height, minX, minY)` tuple of the constructor's
  /// `Aggregate`; the first two are really the largest x and y.
  datatype Box = Box(maxX: int, maxY: int, minX: int, minY: int)

  function Max(a: int, b: int): int { if a < b then b else a }
  function Min(a: int, b: int): int { if a < b then a else b }

  /// One step of the `Aggregate`.
  function Widen(acc: Box, p: Point): Box
  {
    Box(Max(acc.maxX, p.x), Max(acc.maxY, p.y), Min(acc.minX, p.x), Min(acc.minY, p.y))
  }

  /// `Aggregate` from the accumulator `acc`, over the points left to right.
  function Aggregate(acc: Box, points: seq<Point>): Box
    decreases points
  {
    if points == [] then acc else Aggregate(Widen(acc, points[0]), points[1..])
  }

  /// Each bound of the `Aggregate` is the extreme of the points'
  /// coordinates and the accumulator's own bound.
  lemma {:induction false} AggregateMeans(acc: Box, points: seq<Point>)
    ensures var r := Aggregate(acc, points);
      (acc.maxX <= r.maxX && forall i :: 0 <= i < |points| ==> points[i].x <= r.maxX) &&
      (r.maxX == acc.maxX || exists i :: 0 <= i < |points| && points[i].x == r.maxX) &&
      (acc.maxY <= r.maxY && forall i :: 0 <= i < |points| ==> points[i].y <= r.maxY) &&
      (r.maxY == acc.maxY || exists i :: 0 <= i < |points| && points[i].y == r.maxY) &&
      (r.minX <= acc.minX && forall i :: 0 <= i < |points| ==> r.minX <= points[i].x) &&
      (r.minX == acc.minX || exists i :: 0 <= i < |points| && points[i].x == r.minX) &&
      (r.minY <= acc.minY && forall i :: 0 <= i < |points| ==> r.minY <= points[i].y) &&
      (r.minY == acc.minY || exists i :: 0 <= i < |points| && points[i].y == r.minY)
    decreases points
  {
    if points != [] {
      var rest := points[1..];
      AggregateMeans(Widen(acc, points[0]), rest);
      assert forall i :: 1 <= i < |points| ==> points[i] == rest[i - 1];
    }
  }

  /// The constructor's `Aggregate`, seeded with `(0, 0, 0, 0)`.
  function Bounds(points: seq<Point>): Box
  {
    Aggregate(Box(0, 0, 0, 0), points)
  }

  /// `Map`, without the points it keeps for printing.
  datatype Map = Map(maxX: int, maxY: int, minX: int, minY: int, width: int, height: int)

  /// The `Map` constructor.
  function NewMap(points: seq<Point>): Map
  {
    var b := Bounds(points);
    Map(b.maxX, b.maxY, b.minX, b.minY, b.maxX - b.minX, b.maxY - b.minY)
  }

  /// Every point lies in the box from `(minX, minY)` to `(maxX, maxY)`,
  /// which also holds the origin and is no larger than that: each bound is
  /// 0 or some point's coordinate; `width` and `height` are its extents.
  lemma NewMapMeans(points: seq<Point>)
    ensures var m := NewMap(points);
      m.width == m.maxX - m.minX && m.height == m.maxY - m.minY &&
      m.minX <= 0 <= m.maxX && m.minY <= 0 <= m.maxY &&
      0 <= m.width && 0 <= m.height &&
      (forall i :: 0 <= i < |points| ==>
        m.minX <= points[i].x <= m.maxX && m.minY <= points[i].y <= m.maxY) &&
      (m.maxX == 0 || exists i :: 0 <= i < |points| && points[i].x == m.maxX) &&
      (m.maxY == 0 || exists i :: 0 <= i < |points| && points[i].y == m.maxY) &&
      (m.minX == 0 || exists i :: 0 <= i < |points| && points[i].x == m.minX) &&
      (m.minY == 0 || exists i :: 0 <= i < |points| && points[i].y == m.minY)
  {
    AggregateMeans(Box(0, 0, 0, 0), points);
  }

  /// The box depends only on which points there are, not on their order or
  /// repetition.
  lemma NewMapSameSet(a: seq<Point>, b: seq<Point>)
    requires forall p :: p in a <==> p in b
    ensures NewMap(a) == NewMap(b)
  {
    SameSetBound(a, b);
    SameSetBound(b, a);
  }

  lemma SameSetBound(a: seq<Point>, b: seq<Point>)
    requires forall p :: p in a <==> p in b
    ensures NewMap(b).maxX <= NewMap(a).maxX && NewMap(b).maxY <= NewMap(a).maxY
    ensures NewMap(a).minX <= NewMap(b).minX && NewMap(a).minY <= NewMap(b).minY
  {
    NewMapMeans(a);
    NewMapMeans(b);
    var mb := NewMap(b);
    if mb.maxX != 0 {
      var i :| 0 <= i < |b| && b[i].x == mb.maxX;
      assert b[i] in a;
    }
    if mb.maxY != 0 {
      var i :| 0 <= i < |b| && b[i].y == mb.maxY;
      assert b[i] in a;
    }
    if mb.minX != 0 {
      var i :| 0 <= i < |b| && b[i].x == mb.minX;
      assert b[i] in a;
    }
    if mb.minY != 0 {
      var i :| 0 <= i < |b| && b[i].y == mb.minY;
      assert b[i] in a;
    }
  }
}

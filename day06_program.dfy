/// Manhattan regions (Day06/Program.cs): each grid cell belongs to the input
/// point uniquely nearest to it; a point's region is finite when the other
/// points surround it in all four 45-degree quadrants.
module Day06Program {
  import opened Wrappers
  import opened Linq

  type Point = (int, int)

  /// The `[Flags] Quadrants` enum: one bit per quadrant.
  type Quadrants = bv4

  const Unknown: Quadrants := 0
  const Top: Quadrants := 1
  const Right: Quadrants := 2
  const Bottom: Quadrants := 4
  const Left: Quadrants := 8
  const All: Quadrants := 15

  /// `GetQuadrants`: the quadrant, or the two quadrants whose common
  /// boundary it lies on, of `pointToTest` seen from `centre`. The y axis
  /// grows downwards, so it is inverted first.
  function GetQuadrants(centre: Point, pointToTest: Point): (q: Quadrants)
  {
    var x := pointToTest.0 - centre.0;
    var y := centre.1 - pointToTest.1;
    var topRightHalf := x >= -y;
    var bottomLeftHalf := x <= -y;
    var topLeftHalf := x <= y;
    var bottomRightHalf := x >= y;
    (if topRightHalf && topLeftHalf then Top else Unknown)
    | (if topRightHalf && bottomRightHalf then Right else Unknown)
    | (if bottomLeftHalf && bottomRightHalf then Bottom else Unknown)
    | (if bottomLeftHalf && topLeftHalf then Left else Unknown)
  }

  function Abs(n: int): nat
  {
    if n < 0 then -n else n
  }

  /// A point is in a quadrant when it is at least as far from the centre in
  /// that direction as it is sideways.
  lemma GetQuadrantsMeans(centre: Point, p: Point)
    ensures GetQuadrants(centre, p) & Top != 0 <==> centre.1 - p.1 >= Abs(p.0 - centre.0)
    ensures GetQuadrants(centre, p) & Bottom != 0 <==> p.1 - centre.1 >= Abs(p.0 - centre.0)
    ensures GetQuadrants(centre, p) & Right != 0 <==> p.0 - centre.0 >= Abs(p.1 - centre.1)
    ensures GetQuadrants(centre, p) & Left != 0 <==> centre.0 - p.0 >= Abs(p.1 - centre.1)
  {
  }

  /// A centre seen from itself lies in all four quadrants.
  lemma SelfInAllQuadrants(c: Point)
    ensures GetQuadrants(c, c) == All
  {
  }

  /// Every point lies in some quadrant; a point on a diagonal through the
  /// centre (other than the centre) lies in exactly two adjacent ones, and
  /// any other point in exactly one.
  lemma GetQuadrantsCount(centre: Point, p: Point)
    ensures GetQuadrants(centre, p) != Unknown
    ensures p != centre && Abs(p.0 - centre.0) == Abs(p.1 - centre.1) ==>
      GetQuadrants(centre, p) in {Top | Right, Right | Bottom, Bottom | Left, Left | Top}
    ensures Abs(p.0 - centre.0) != Abs(p.1 - centre.1) ==>
      GetQuadrants(centre, p) in {Top, Right, Bottom, Left}
  {
    GetQuadrantsMeans(centre, p);
  }

  /// The asserted quadrant cases around (5, 5).
  lemma QuadrantExamples()
    ensures GetQuadrants((5, 5), (1, 0)) == Top && GetQuadrants((5, 5), (5, 0)) == Top
    ensures GetQuadrants((5, 5), (4, 3)) == Top && GetQuadrants((5, 5), (5, 3)) == Top
    ensures GetQuadrants((5, 5), (6, 3)) == Top && GetQuadrants((5, 5), (5, 4)) == Top
    ensures GetQuadrants((5, 5), (6, 4)) == Top | Right && GetQuadrants((5, 5), (10, 0)) == Top | Right
    ensures GetQuadrants((5, 5), (10, 1)) == Right && GetQuadrants((5, 5), (10, 5)) == Right
    ensures GetQuadrants((5, 5), (7, 4)) == Right && GetQuadrants((5, 5), (7, 5)) == Right
    ensures GetQuadrants((5, 5), (7, 6)) == Right && GetQuadrants((5, 5), (6, 5)) == Right
    ensures GetQuadrants((5, 5), (6, 6)) == Bottom | Right && GetQuadrants((5, 5), (10, 10)) == Bottom | Right
    ensures GetQuadrants((5, 5), (1, 10)) == Bottom && GetQuadrants((5, 5), (5, 10)) == Bottom
    ensures GetQuadrants((5, 5), (4, 7)) == Bottom && GetQuadrants((5, 5), (5, 7)) == Bottom
    ensures GetQuadrants((5, 5), (6, 7)) == Bottom && GetQuadrants((5, 5), (5, 6)) == Bottom
    ensures GetQuadrants((5, 5), (4, 6)) == Bottom | Left && GetQuadrants((5, 5), (0, 10)) == Bottom | Left
    ensures GetQuadrants((5, 5), (0, 1)) == Left && GetQuadrants((5, 5), (0, 5)) == Left
    ensures GetQuadrants((5, 5), (3, 4)) == Left && GetQuadrants((5, 5), (3, 5)) == Left
    ensures GetQuadrants((5, 5), (3, 6)) == Left && GetQuadrants((5, 5), (4, 5)) == Left
    ensures GetQuadrants((5, 5), (4, 4)) == Top | Left && GetQuadrants((5, 5), (0, 0)) == Top | Left
    ensures GetQuadrants((5, 5), (5, 5)) == Top | Left | Right | Bottom
  {
  }

  /// `ManhattanDistance`.
  function ManhattanDistance(p1: Point, p2: Point): (d: nat)
  {
    Abs(p1.0 - p2.0) + Abs(p1.1 - p2.1)
  }

  /// The distance is symmetric, zero exactly between equal points, and
  /// obeys the triangle inequality.
  lemma ManhattanDistanceMetric(a: Point, b: Point, c: Point)
    ensures ManhattanDistance(a, b) == ManhattanDistance(b, a)
    ensures ManhattanDistance(a, b) == 0 <==> a == b
    ensures ManhattanDistance(a, c) <= ManhattanDistance(a, b) + ManhattanDistance(b, c)
  {
  }

  function Max(a: int, b: int): int
  {
    if a < b then b else a
  }

  /// `GetBoundingBoxFromOrigin`: the largest x and the largest y, starting
  /// from (0, 0).
  function GetBoundingBoxFromOrigin(points: seq<Point>): (box: Point)
    ensures box.0 >= 0 && box.1 >= 0
    ensures forall p :: p in points ==> p.0 <= box.0 && p.1 <= box.1
    ensures box.0 == 0 || exists p :: p in points && p.0 == box.0
    ensures box.1 == 0 || exists p :: p in points && p.1 == box.1
  {
    if points == [] then (0, 0)
    else
      var d := GetBoundingBoxFromOrigin(points[..|points| - 1]);
      var p := points[|points| - 1];
      assert forall q :: q in points ==> q in points[..|points| - 1] || q == p;
      (Max(d.0, p.0), Max(d.1, p.1))
  }

  /// The cells `Range(0, w) x Range(0, h)`.
  function Grid(w: int, h: int): (cells: set<Point>)
    ensures forall c :: c in cells <==> 0 <= c.0 < w && 0 <= c.1 < h
  {
    set x, y | 0 <= x < w && 0 <= y < h :: (x, y)
  }

  /// The smallest distance from `c` to a point of `points`.
  function MinDistance(points: seq<Point>, c: Point): (d: nat)
    requires |points| > 0
    ensures forall i :: 0 <= i < |points| ==> d <= ManhattanDistance(c, points[i])
    ensures exists i :: 0 <= i < |points| && d == ManhattanDistance(c, points[i])
  {
    if |points| == 1 then ManhattanDistance(c, points[0])
    else
      var rest := MinDistance(points[1..], c);
      assert forall i :: 1 <= i < |points| ==> points[i] == points[1..][i - 1];
      var here := ManhattanDistance(c, points[0]);
      if here <= rest then here else rest
  }

  /// The points at distance `d` from `c`, in input order.
  function AtDistance(points: seq<Point>, c: Point, d: nat): (r: seq<Point>)
    ensures forall p :: p in r ==> p in points && ManhattanDistance(c, p) == d
    ensures |r| <= |points|
  {
    if points == [] then []
    else (if ManhattanDistance(c, points[0]) == d then [points[0]] else []) + AtDistance(points[1..], c, d)
  }

  /// `MinBy(p => ManhattanDistance((x, y), p))`: every point at the least
  /// distance, in input order; empty when there are no points.
  function Nearest(points: seq<Point>, c: Point): seq<Point>
  {
    if points == [] then [] else AtDistance(points, c, MinDistance(points, c))
  }

  /// The point at index `i` is strictly closer to `c` than any other entry.
  predicate StrictlyNearest(points: seq<Point>, c: Point, i: int)
  {
    0 <= i < |points| &&
    forall j :: 0 <= j < |points| && j != i ==> ManhattanDistance(c, points[i]) < ManhattanDistance(c, points[j])
  }

  /// Exactly one entry at distance `d` gives a one-element result holding it.
  lemma {:induction false} AtDistanceSingle(points: seq<Point>, c: Point, d: nat, i: int)
    requires 0 <= i < |points| && ManhattanDistance(c, points[i]) == d
    requires forall j :: 0 <= j < |points| && j != i ==> ManhattanDistance(c, points[j]) != d
    ensures AtDistance(points, c, d) == [points[i]]
  {
    if i == 0 {
      AtDistanceNone(points[1..], c, d);
    } else {
      AtDistanceSingle(points[1..], c, d, i - 1);
    }
  }

  lemma {:induction false} AtDistanceNone(points: seq<Point>, c: Point, d: nat)
    requires forall j :: 0 <= j < |points| ==> ManhattanDistance(c, points[j]) != d
    ensures AtDistance(points, c, d) == []
  {
    if points != [] {
      AtDistanceNone(points[1..], c, d);
    }
  }

  /// A one-element result comes from exactly one entry at distance `d`.
  lemma {:induction false} AtDistanceOne(points: seq<Point>, c: Point, d: nat) returns (i: int)
    requires |AtDistance(points, c, d)| == 1
    ensures 0 <= i < |points| && ManhattanDistance(c, points[i]) == d
    ensures AtDistance(points, c, d) == [points[i]]
    ensures forall j :: 0 <= j < |points| && j != i ==> ManhattanDistance(c, points[j]) != d
  {
    var rest := AtDistance(points[1..], c, d);
    if ManhattanDistance(c, points[0]) == d {
      assert |rest| == 0;
      AtDistanceEmpty(points[1..], c, d);
      i := 0;
    } else {
      var k := AtDistanceOne(points[1..], c, d);
      i := k + 1;
    }
  }

  lemma {:induction false} AtDistanceEmpty(points: seq<Point>, c: Point, d: nat)
    requires AtDistance(points, c, d) == []
    ensures forall j :: 0 <= j < |points| ==> ManhattanDistance(c, points[j]) != d
  {
    if points != [] {
      AtDistanceEmpty(points[1..], c, d);
      assert forall j :: 1 <= j < |points| ==> points[j] == points[1..][j - 1];
    }
  }

  /// `MinBy` yields exactly one point iff one entry is strictly nearest, and
  /// then it yields that entry.
  lemma NearestUnique(points: seq<Point>, c: Point)
    ensures |Nearest(points, c)| == 1 <==> exists i :: StrictlyNearest(points, c, i)
    ensures forall i :: StrictlyNearest(points, c, i) ==> Nearest(points, c) == [points[i]]
  {
    forall i | StrictlyNearest(points, c, i) ensures Nearest(points, c) == [points[i]] {
      var d := MinDistance(points, c);
      var k :| 0 <= k < |points| && d == ManhattanDistance(c, points[k]);
      assert ManhattanDistance(c, points[i]) == d;
      AtDistanceSingle(points, c, d, i);
    }
    if |Nearest(points, c)| == 1 {
      var d := MinDistance(points, c);
      var i := AtDistanceOne(points, c, d);
      assert StrictlyNearest(points, c, i);
    }
  }

  /// The centre of cell `c`, when one point is its unique nearest.
  predicate HasUniqueCentre(points: seq<Point>, c: Point)
  {
    |Nearest(points, c)| == 1
  }

  /// `PopulateRegions`: each cell of the `w` by `h` grid that has a unique
  /// nearest point, mapped to that point.
  function PopulateRegions(w: int, h: int, points: seq<Point>): (regions: map<Point, Point>)
    ensures forall c :: c in regions <==> c in Grid(w, h) && exists i :: StrictlyNearest(points, c, i)
    ensures forall c, i :: c in regions && StrictlyNearest(points, c, i) ==> regions[c] == points[i]
  {
    var r := map c | c in Grid(w, h) && HasUniqueCentre(points, c) :: Nearest(points, c)[0];
    assert forall c :: HasUniqueCentre(points, c) <==> exists i :: StrictlyNearest(points, c, i) by {
      forall c ensures HasUniqueCentre(points, c) <==> exists i :: StrictlyNearest(points, c, i) {
        NearestUnique(points, c);
      }
    }
    assert forall c, i :: c in r && StrictlyNearest(points, c, i) ==> r[c] == points[i] by {
      forall c, i | c in r && StrictlyNearest(points, c, i) ensures r[c] == points[i] {
        NearestUnique(points, c);
      }
    }
    r
  }

  /// The cells a region map assigns to `centre`.
  function RegionOf(data: map<Point, Point>, centre: Point): set<Point>
  {
    set c | c in data && data[c] == centre
  }

  /// `GetRegionSizes`: each centre that owns a cell, with its cell count.
  function GetRegionSizes(data: map<Point, Point>): (sizes: map<Point, int>)
    ensures forall v :: v in sizes <==> exists c :: c in data && data[c] == v
    ensures forall v :: v in sizes ==> sizes[v] == |RegionOf(data, v)| && sizes[v] >= 1
  {
    var r := map v | v in data.Values :: |RegionOf(data, v)|;
    assert forall v :: v in r ==> r[v] >= 1 by {
      forall v | v in r ensures |RegionOf(data, v)| >= 1 {
        var c :| c in data && data[c] == v;
        assert c in RegionOf(data, v);
      }
    }
    r
  }

  /// The union of the quadrants that the points of `others` other than `p`
  /// occupy around `p`, folded left to right from `Unknown`.
  function PointQuadrants(others: seq<Point>, p: Point): Quadrants
  {
    if others == [] then Unknown
    else
      var q := PointQuadrants(others[..|others| - 1], p);
      var p2 := others[|others| - 1];
      if p2 != p then q | GetQuadrants(p, p2) else q
  }

  /// Some point of `others` other than `p` lies in a quadrant of `b` around `p`.
  predicate Occupied(others: seq<Point>, p: Point, b: Quadrants)
  {
    exists a :: a in others && a != p && GetQuadrants(p, a) & b != 0
  }

  /// The fold sets a bit exactly when some other point lies in that
  /// quadrant.
  lemma {:induction false} PointQuadrantsMeans(others: seq<Point>, p: Point, b: Quadrants)
    ensures PointQuadrants(others, p) & b != 0 <==> Occupied(others, p, b)
  {
    if others != [] {
      var init := others[..|others| - 1];
      var p2 := others[|others| - 1];
      PointQuadrantsMeans(init, p, b);
      assert forall x :: x in others <==> x in init || x == p2;
      var q := PointQuadrants(init, p);
      if p2 != p {
        assert (q | GetQuadrants(p, p2)) & b != 0 <==> q & b != 0 || GetQuadrants(p, p2) & b != 0;
        if GetQuadrants(p, p2) & b != 0 {
          assert Occupied(others, p, b);
        }
      }
      if Occupied(others, p, b) {
        var a :| a in others && a != p && GetQuadrants(p, a) & b != 0;
        if a != p2 {
          assert Occupied(init, p, b);
        }
      }
    }
  }

  /// `GetFiniteRegionCentres`: the points surrounded on all four sides, in
  /// input order.
  function GetFiniteRegionCentresFrom(candidates: seq<Point>, points: seq<Point>): (r: seq<Point>)
    ensures forall p :: p in r <==> p in candidates && PointQuadrants(points, p) == All
  {
    if candidates == [] then []
    else
      var rest := GetFiniteRegionCentresFrom(candidates[1..], points);
      var p := candidates[0];
      assert forall x :: x in candidates <==> x == p || x in candidates[1..];
      if PointQuadrants(points, p) == All then [p] + rest else rest
  }

  function GetFiniteRegionCentres(points: seq<Point>): seq<Point>
  {
    GetFiniteRegionCentresFrom(points, points)
  }

  /// All four bits of a quadrant set are set exactly when it is `All`.
  lemma AllMeans(q: Quadrants)
    ensures q == All <==> q & Top != 0 && q & Right != 0 && q & Bottom != 0 && q & Left != 0
  {
  }

  /// A point is kept iff, in each quadrant around it, some other input
  /// point lies.
  lemma GetFiniteRegionCentresMeans(points: seq<Point>, p: Point)
    ensures p in GetFiniteRegionCentres(points) <==>
      p in points && Occupied(points, p, Top) && Occupied(points, p, Right) &&
      Occupied(points, p, Bottom) && Occupied(points, p, Left)
  {
    AllMeans(PointQuadrants(points, p));
    PointQuadrantsMeans(points, p, Top);
    PointQuadrantsMeans(points, p, Right);
    PointQuadrantsMeans(points, p, Bottom);
    PointQuadrantsMeans(points, p, Left);
  }

  /// `GetFiniteRegionSizes`: the region sizes of the finite centres.
  function GetFiniteRegionSizes(data: map<Point, Point>, points: seq<Point>): (sizes: map<Point, int>)
    ensures forall v :: v in sizes <==> v in GetRegionSizes(data) && v in GetFiniteRegionCentres(points)
    ensures forall v :: v in sizes ==> sizes[v] == |RegionOf(data, v)|
  {
    var all := GetRegionSizes(data);
    var finite := GetFiniteRegionCentres(points);
    map v | v in all && v in finite :: all[v]
  }

  /// The finite region sizes `SolvePart1` maximises.
  function FiniteSizes(points: seq<Point>): map<Point, int>
  {
    var box := GetBoundingBoxFromOrigin(points);
    GetFiniteRegionSizes(PopulateRegions(box.0, box.1, points), points)
  }

  /// LINQ `Max` over the values of a size map; it throws on an empty one.
  ghost function MaxSize(sizes: map<Point, int>): (r: Result<int>)
    ensures r.Failure? <==> sizes == map[]
    ensures r.Failure? ==> r.error == InvalidOperation
    ensures r.Success? ==>
      (exists v :: v in sizes && sizes[v] == r.value) && forall v :: v in sizes ==> sizes[v] <= r.value
  {
    if sizes == map[] then Failure(InvalidOperation)
    else
      assert sizes.Values != {} by {
        var v :| v in sizes;
        assert sizes[v] in sizes.Values;
      }
      var m := SetMax(sizes.Values);
      assert forall v :: v in sizes ==> sizes[v] in sizes.Values;
      Success(m)
  }

  /// `SolvePart1`: the size of the largest finite region inside the
  /// bounding box.
  ghost function SolvePart1(points: seq<Point>): Result<int>
  {
    MaxSize(FiniteSizes(points))
  }

  /// The sum of the distances from `c` to every point.
  function DistanceSum(points: seq<Point>, c: Point): (n: nat)
    ensures points != [] ==> n >= ManhattanDistance(c, points[0])
  {
    if points == [] then 0 else ManhattanDistance(c, points[0]) + DistanceSum(points[1..], c)
  }

  /// `PopulateDistanceSumMap`: each grid cell with its distance sum.
  function PopulateDistanceSumMap(w: int, h: int, points: seq<Point>): (sums: map<Point, int>)
    ensures sums.Keys == Grid(w, h)
    ensures forall c :: c in sums ==> sums[c] == DistanceSum(points, c)
  {
    map c | c in Grid(w, h) :: DistanceSum(points, c)
  }

  /// The cells of a sum map strictly below the threshold.
  function BelowThreshold(sums: map<Point, int>, threshold: int): set<Point>
  {
    set c | c in sums && sums[c] < threshold
  }

  /// `GetSizeOfRegionWhereDistanceSumIsBelowThreshold`.
  function GetSizeOfRegionWhereDistanceSumIsBelowThreshold(sums: map<Point, int>, threshold: int): (n: nat)
    ensures n <= |sums|
  {
    var below := BelowThreshold(sums, threshold);
    assert below <= sums.Keys;
    SubsetCard(below, sums.Keys);
    |below|
  }

  lemma SubsetCard(a: set<Point>, b: set<Point>)
    requires a <= b
    ensures |a| <= |b|
  {
    if a != {} {
      var x :| x in a;
      SubsetCard(a - {x}, b - {x});
    }
  }

  /// `SolvePart2`: the number of cells of the bounding box whose distance
  /// sum is strictly below the threshold.
  function SolvePart2(points: seq<Point>, threshold: int): (n: nat)
  {
    var box := GetBoundingBoxFromOrigin(points);
    GetSizeOfRegionWhereDistanceSumIsBelowThreshold(PopulateDistanceSumMap(box.0, box.1, points), threshold)
  }

  /// The cells `(x, y)` with `0 <= x < w`, `0 <= y < h` whose distance sum
  /// is below the threshold.
  function CellsBelow(w: int, h: int, points: seq<Point>, threshold: int): set<Point>
  {
    set c | c in Grid(w, h) && DistanceSum(points, c) < threshold
  }

  /// The threshold count over a `w` by `h` sum map counts the cells
  /// `(x, y)` with `0 <= x < w`, `0 <= y < h` and a distance sum below the
  /// threshold.
  lemma {:induction false} BelowThresholdMeans(w: int, h: int, points: seq<Point>, threshold: int)
    ensures GetSizeOfRegionWhereDistanceSumIsBelowThreshold(PopulateDistanceSumMap(w, h, points), threshold) ==
      |CellsBelow(w, h, points, threshold)|
  {
    var sums := PopulateDistanceSumMap(w, h, points);
    var expected := CellsBelow(w, h, points, threshold);
    forall c ensures c in BelowThreshold(sums, threshold) <==> c in expected {
    }
    assert BelowThreshold(sums, threshold) == expected;
  }

  /// What part 2 counts, over the bounding box.
  lemma SolvePart2Means(points: seq<Point>, threshold: int)
    ensures var box := GetBoundingBoxFromOrigin(points);
      SolvePart2(points, threshold) == |CellsBelow(box.0, box.1, points, threshold)|
  {
    var box := GetBoundingBoxFromOrigin(points);
    BelowThresholdMeans(box.0, box.1, points, threshold);
  }
}

/// Day10/Program.cs: running the points forward until their bounding box
/// starts to grow again.
module Day10Program {
  import opened Day10Point
  import opened Day10Map

  /// `ExamplePoints`: the 31 points of the puzzle's example.
  const ExamplePoints: seq<Point> := [
    Point(9, 1, 0, 2),
    Point(7, 0, -1, 0),
    Point(3, -2, -1, 1),
    Point(6, 10, -2, -1),
    Point(2, -4, 2, 2),
    Point(-6, 10, 2, -2),
    Point(1, 8, 1, -1),
    Point(1, 7, 1, 0),
    Point(-3, 11, 1, -2),
    Point(7, 6, -1, -1),
    Point(-2, 3, 1, 0),
    Point(-4, 3, 2, 0),
    Point(10, -3, -1, 1),
    Point(5, 11, 1, -2),
    Point(4, 7, 0, -1),
    Point(8, -2, 0, 1),
    Point(15, 0, -2, 0),
    Point(1, 6, 1, 0),
    Point(8, 9, 0, -1),
    Point(3, 3, -1, 1),
    Point(0, 5, 0, -1),
    Point(-2, 2, 2, 0),
    Point(5, -2, 1, 2),
    Point(1, 4, 2, 1),
    Point(-2, 7, 2, -2),
    Point(3, 6, -1, -1),
    Point(5, 0, 1, 0),
    Point(-6, 0, 2, 0),
    Point(5, 9, 1, -2),
    Point(14, 7, -2, 0),
    Point(-3, 6, 2, -1)]

  /// `int.MaxValue`, the seed's width and height.
  const IntMax: int := 0x7fff_ffff

  /// `IteratePoints`: every point moved once, in order.
  function IteratePoints(points: seq<Point>): (r: seq<Point>)
    ensures |r| == |points|
    ensures forall i :: 0 <= i < |points| ==> r[i] == Next(points[i])
  {
    if points == [] then []
    else
      var rest := IteratePoints(points[1..]);
      assert forall i :: 1 <= i < |points| ==> points[1..][i - 1] == points[i];
      [Next(points[0])] + rest
  }

  /// Element `k` of `Run`: `IteratePoints` applied `k` times.
  function RunAt(start: seq<Point>, k: int): seq<Point>
    decreases k
  {
    if k <= 0 then start else IteratePoints(RunAt(start, k - 1))
  }

  /// Element `k` of `Run` is every starting point moved for `k` seconds.
  lemma {:induction false} RunAtMeans(start: seq<Point>, k: nat)
    ensures |RunAt(start, k)| == |start|
    ensures forall i :: 0 <= i < |start| ==> RunAt(start, k)[i] == Moved(start[i], k)
  {
    if k > 0 {
      RunAtMeans(start, k - 1);
    }
  }

  /// The accumulator of `RunUntilDivergent`'s `Scan`.
  datatype Scanned = Scanned(width: int, height: int, largerThanPrevious: bool, points: seq<Point>)

  /// The seed of the `Scan`.
  function Seed(start: seq<Point>): Scanned
  {
    Scanned(IntMax, IntMax, false, start)
  }

  /// The `Scan` step: the new state's box, and whether it grew in either
  /// direction against the previous one.
  function ScanStep(acc: Scanned, points: seq<Point>): (r: Scanned)
  {
    var m := NewMap(points);
    Scanned(m.width, m.height, m.width > acc.width || m.height > acc.height, points)
  }

  /// Element `k` of the `Scan`: the seed first, then one accumulator per
  /// element of `Run`.
  function ScanAt(start: seq<Point>, k: int): Scanned
    decreases k
  {
    if k <= 0 then Seed(start) else ScanStep(ScanAt(start, k - 1), RunAt(start, k - 1))
  }

  /// `TakeWhile(ps => !ps.largerThanPrevious).Select(ps => ps.points)`
  /// over the elements `scan(j)`, `scan(j + 1)`, ..., taking no more than
  /// `limit - j` of them.
  function UntilFrom(scan: int -> Scanned, j: nat, limit: nat): (r: seq<seq<Point>>)
    requires j <= limit
    ensures j + |r| <= limit
    ensures forall k :: j <= k < j + |r| ==> r[k - j] == scan(k).points && !scan(k).largerThanPrevious
    ensures j + |r| < limit ==> scan(j + |r|).largerThanPrevious
    decreases limit - j
  {
    if j == limit || scan(j).largerThanPrevious then []
    else
      var rest := UntilFrom(scan, j + 1, limit);
      var r := [scan(j).points] + rest;
      assert forall k :: j < k < j + |r| ==> r[k - j] == rest[k - (j + 1)] == scan(k).points;
      r
  }

  /// `RunUntilDivergent(start).Take(limit)`.
  function RunUntilDivergent(start: seq<Point>, limit: nat): (r: seq<seq<Point>>)
    ensures |r| <= limit
    ensures forall k :: 0 <= k < |r| ==> r[k] == ScanAt(start, k).points && !ScanAt(start, k).largerThanPrevious
    ensures |r| < limit ==> ScanAt(start, |r|).largerThanPrevious
  {
    var scan := k => ScanAt(start, k);
    var r := UntilFrom(scan, 0, limit);
    assert forall k :: scan(k) == ScanAt(start, k);
    r
  }

  /// `RunUntilDivergent` yields the start twice (the seed and the first
  /// element of `Run`), then the later states of `Run` in order.
  lemma RunUntilDivergentStates(start: seq<Point>, limit: nat)
    ensures var r := RunUntilDivergent(start, limit);
      (|r| > 0 ==> r[0] == start) && forall i :: 1 <= i < |r| ==> r[i] == RunAt(start, i - 1)
  {
  }

  /// Along what `RunUntilDivergent` yields, neither the width nor the
  /// height of the box ever grows from one state to the next.
  lemma RunUntilDivergentShrinks(start: seq<Point>, limit: nat)
    ensures var r := RunUntilDivergent(start, limit);
      forall i :: 2 <= i < |r| ==>
        NewMap(r[i]).width <= NewMap(r[i - 1]).width && NewMap(r[i]).height <= NewMap(r[i - 1]).height
  {
    var r := RunUntilDivergent(start, limit);
    forall i | 2 <= i < |r|
      ensures NewMap(r[i]).width <= NewMap(r[i - 1]).width && NewMap(r[i]).height <= NewMap(r[i - 1]).height
    {
      ScanAtPrevious(start, i);
    }
  }

  /// `RunUntilDivergent` stops (before `limit`) only at a state of `Run`
  /// whose box is wider or taller than the one before it.
  lemma RunUntilDivergentStops(start: seq<Point>, limit: nat)
    ensures var r := RunUntilDivergent(start, limit);
      2 <= |r| < limit ==>
        NewMap(RunAt(start, |r| - 1)).width > NewMap(RunAt(start, |r| - 2)).width ||
        NewMap(RunAt(start, |r| - 1)).height > NewMap(RunAt(start, |r| - 2)).height
  {
    var r := RunUntilDivergent(start, limit);
    if 2 <= |r| < limit {
      ScanAtPrevious(start, |r|);
    }
  }

  /// From element 2 on, each accumulator compares a state of `Run` with
  /// the state before it.
  lemma ScanAtPrevious(start: seq<Point>, k: int)
    requires k >= 2
    ensures ScanAt(start, k).points == RunAt(start, k - 1)
    ensures ScanAt(start, k - 1).points == RunAt(start, k - 2)
    ensures ScanAt(start, k).largerThanPrevious <==>
      NewMap(RunAt(start, k - 1)).width > NewMap(RunAt(start, k - 2)).width ||
      NewMap(RunAt(start, k - 1)).height > NewMap(RunAt(start, k - 2)).height
  {
  }
}

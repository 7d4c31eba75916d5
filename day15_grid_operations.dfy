/// Grid operations of the combat simulation (Day15/GridOperations.cs):
/// choosing the best neighbour, the closeness sweep and its fixed point,
/// and choosing a unit's move.
///
/// A grid is held row by row, `g[y][x]`, the same axis order as the
/// source's `GridCell[y, x]` arrays, so that reading order is the order of
/// the rows and then of the cells in a row.
module Day15GridOperations {
  import opened Wrappers
  import opened Day15GridCell
  import opened Day15GridPair

  type Grid = seq<seq<GridCell>>

  function Width(g: Grid): nat
  {
    if |g| == 0 then 0 else |g[0]|
  }

  /// Every row has the width of the first.
  predicate Rect(g: Grid)
  {
    forall y :: 0 <= y < |g| ==> |g[y]| == Width(g)
  }

  predicate InGrid(g: Grid, p: Pos)
  {
    0 <= p.y < |g| && 0 <= p.x < Width(g)
  }

  function At(g: Grid, p: Pos): GridCell
    requires Rect(g) && InGrid(g, p)
  {
    g[p.y][p.x]
  }

  /// Not on the outermost ring of the grid, so all four neighbours exist.
  predicate Interior(g: Grid, p: Pos)
  {
    1 <= p.y < |g| - 1 && 1 <= p.x < Width(g) - 1
  }

  /// The outermost ring is wall. Every map of the puzzle is walled in; the
  /// source reads a neighbour of every open cell without a bounds check.
  ghost predicate Walled(g: Grid)
  {
    Rect(g) && forall p :: InGrid(g, p) && !Interior(g, p) ==> At(g, p).isWall
  }

  /// A walled grid of well-formed cells: what every operation here works on.
  ghost predicate Valid(g: Grid)
  {
    Walled(g) && forall p :: InGrid(g, p) ==> WellFormed(At(g, p))
  }

  /// Two rectangular grids of the same size hold walls and units of the same
  /// kind and id in the same places (closeness annotations aside).
  ghost predicate SameLayout(g: Grid, h: Grid)
  {
    Rect(g) && Rect(h) && |g| == |h| && Width(g) == Width(h) &&
    forall p :: InGrid(g, p) ==>
      At(h, p).isWall == At(g, p).isWall && At(h, p).isElf == At(g, p).isElf &&
      At(h, p).isGoblin == At(g, p).isGoblin &&
      (At(g, p).isElf ==> At(h, p).elfId == At(g, p).elfId) &&
      (At(g, p).isGoblin ==> At(h, p).goblinId == At(g, p).goblinId)
  }

  /// Two grids of the same shape are equal exactly when they agree at every
  /// position.
  lemma GridEquality(g: Grid, h: Grid)
    requires Rect(g) && Rect(h) && |g| == |h| && Width(g) == Width(h)
    ensures g == h <==> forall p :: InGrid(g, p) ==> At(g, p) == At(h, p)
  {
    if forall p :: InGrid(g, p) ==> At(g, p) == At(h, p) {
      forall y | 0 <= y < |g| ensures g[y] == h[y] {
        forall x | 0 <= x < |g[y]| ensures g[y][x] == h[y][x] {
          assert At(g, Pos(x, y)) == At(h, Pos(x, y));
        }
      }
    }
  }

  /// The current contents of a grid array, as a value.
  function Snapshot(a: array2<GridCell>): (g: Grid)
    reads a
    ensures |g| == a.Length0 && Rect(g) && (a.Length0 > 0 ==> Width(g) == a.Length1)
    ensures forall p :: InGrid(g, p) ==> At(g, p) == a[p.y, p.x]
  {
    seq(a.Length0, y requires 0 <= y < a.Length0 reads a =>
      seq(a.Length1, x requires 0 <= x < a.Length1 reads a => a[y, x]))
  }

  /// The four neighbours in the order the source lists them: West, East,
  /// North, South.
  function Neighbours(p: Pos): seq<Pos>
  {
    [Pos(p.x - 1, p.y), Pos(p.x + 1, p.y), Pos(p.x, p.y - 1), Pos(p.x, p.y + 1)]
  }

  lemma NeighboursInGrid(g: Grid, p: Pos)
    requires Interior(g, p)
    ensures forall i :: 0 <= i < 4 ==> InGrid(g, Neighbours(p)[i])
  {
  }

  // ---------------------------------------------------------------------
  // FindBest
  // ---------------------------------------------------------------------

  /// The sort key `FindBest` orders neighbours by: the rank, then the first
  /// position's row and column, then the second position's row and column.
  datatype Key = Key(rank: int, first: Pos, second: Pos)

  /// Strict lexicographic order on keys.
  predicate KeyLess(a: Key, b: Key)
  {
    if a.rank != b.rank then a.rank < b.rank
    else if a.first.y != b.first.y then a.first.y < b.first.y
    else if a.first.x != b.first.x then a.first.x < b.first.x
    else if a.second.y != b.second.y then a.second.y < b.second.y
    else a.second.x < b.second.x
  }

  /// `KeyLess` is a strict total order.
  lemma KeyOrder()
    ensures forall a, b, c :: KeyLess(a, b) && KeyLess(b, c) ==> KeyLess(a, c)
    ensures forall a, b :: !KeyLess(a, b) && !KeyLess(b, a) ==> a == b
    ensures forall a :: !KeyLess(a, a)
  {
  }

  /// Index of the first smallest present key: LINQ's stable `OrderBy`
  /// followed by `FirstOrDefault`, over the keys of the candidates that the
  /// `where` clause kept.
  function BestIndex(keys: seq<Option<Key>>): (r: Option<nat>)
    ensures r.None? <==> forall i :: 0 <= i < |keys| ==> keys[i].None?
    ensures r.Some? ==> r.value < |keys| && keys[r.value].Some?
    ensures r.Some? ==> forall j :: 0 <= j < |keys| && keys[j].Some? ==>
      !KeyLess(keys[j].value, keys[r.value].value)
    ensures r.Some? ==> forall j :: 0 <= j < r.value && keys[j].Some? ==>
      KeyLess(keys[r.value].value, keys[j].value)
    decreases |keys|
  {
    if keys == [] then None
    else
      var n := |keys| - 1;
      var front := keys[..n];
      var r := BestIndex(front);
      assert forall j :: 0 <= j < n ==> front[j] == keys[j];
      if keys[n].None? then r
      else if r.None? then Some(n)
      else
        KeyOrder();
        if KeyLess(keys[n].value, keys[r.value].value) then Some(n) else r
  }

  /// The key of neighbour `i` of `p`.
  function NeighbourKey(g: Grid, p: Pos, key: (GridCell, Pos) -> Option<Key>, i: int): Option<Key>
    requires Rect(g) && Interior(g, p) && 0 <= i < 4
  {
    var q := Neighbours(p)[i];
    key(At(g, q), q)
  }

  function NeighbourKeys(g: Grid, p: Pos, key: (GridCell, Pos) -> Option<Key>): (r: seq<Option<Key>>)
    requires Rect(g) && Interior(g, p)
    ensures |r| == 4 && forall i :: 0 <= i < 4 ==> r[i] == NeighbourKey(g, p, key, i)
  {
    [NeighbourKey(g, p, key, 0), NeighbourKey(g, p, key, 1),
     NeighbourKey(g, p, key, 2), NeighbourKey(g, p, key, 3)]
  }

  /// The direction (0 West, 1 East, 2 North, 3 South) `FindBest` picks.
  /// The source's three selectors are folded into one `key` that gives the
  /// whole sort key, or `None` for a neighbour the rank selector excludes.
  function FindBestIndex(g: Grid, p: Pos, key: (GridCell, Pos) -> Option<Key>): (r: Option<nat>)
    requires Rect(g) && Interior(g, p)
    ensures r.None? <==> forall i :: 0 <= i < 4 ==> NeighbourKey(g, p, key, i).None?
    ensures r.Some? ==> r.value < 4 && NeighbourKey(g, p, key, r.value).Some?
    ensures r.Some? ==> forall j :: 0 <= j < 4 && NeighbourKey(g, p, key, j).Some? ==>
      !KeyLess(NeighbourKey(g, p, key, j).value, NeighbourKey(g, p, key, r.value).value)
    ensures r.Some? ==> forall j :: 0 <= j < r.value && NeighbourKey(g, p, key, j).Some? ==>
      KeyLess(NeighbourKey(g, p, key, r.value).value, NeighbourKey(g, p, key, j).value)
  {
    BestIndex(NeighbourKeys(g, p, key))
  }

  /// `FindBest`: the chosen neighbour cell and its position.
  function FindBest(g: Grid, p: Pos, key: (GridCell, Pos) -> Option<Key>): (r: Option<(GridCell, Pos)>)
    requires Rect(g) && Interior(g, p)
    ensures r.None? <==> FindBestIndex(g, p, key).None?
    ensures r.Some? ==>
      var q := Neighbours(p)[FindBestIndex(g, p, key).value];
      r.value == (At(g, q), q)
  {
    match FindBestIndex(g, p, key)
    case None => None
    case Some(i) =>
      var q := Neighbours(p)[i];
      Some((At(g, q), q))
  }

  // ---------------------------------------------------------------------
  // The closeness sweep
  // ---------------------------------------------------------------------

  /// A cell that may carry a closeness annotation for faction `f` but has
  /// none yet.
  predicate Needs(c: GridCell, f: Faction)
  {
    !IsUnit(c, f) && Distance(c, f).None?
  }

  /// The rank `FindNearest` gives a neighbour: 0 for a unit of the faction,
  /// nothing for any other unit, otherwise the neighbour's own distance.
  function ClosenessRank(c: GridCell, f: Faction): Option<int>
  {
    var d := if IsUnit(c, f) then Some(0) else Distance(c, f);
    if d == Some(0) then d
    else if IsAnyUnit(c) then None
    else d
  }

  /// The sort key of `FindNearest` for the cell at `p`: rank, then the
  /// neighbour's in-range position (`p` itself for a unit of the faction);
  /// the second position is the constant default `(1, 1)`. The source
  /// dereferences the in-range position of any ranked non-unit; well-formed
  /// cells always have one.
  function ClosenessKey(f: Faction, p: Pos, c: GridCell, q: Pos): Option<Key>
  {
    match ClosenessRank(c, f)
    case None => None
    case Some(rank) =>
      if IsUnit(c, f) then Some(Key(rank, p, Pos(1, 1)))
      else
        match InRangePosition(c, f)
        case None => None
        case Some(irp) => Some(Key(rank, irp, Pos(1, 1)))
  }

  /// `FindNearest` inside `ProcessOneClosenessStep`.
  function FindNearest(g: Grid, p: Pos, f: Faction): Option<(GridCell, Pos)>
    requires Rect(g) && Interior(g, p)
  {
    FindBest(g, p, NearestKey(f, p))
  }

  /// The selectors `FindNearest` passes to `FindBest`, as one key.
  function NearestKey(f: Faction, p: Pos): (GridCell, Pos) -> Option<Key>
  {
    (c, q) => ClosenessKey(f, p, c, q)
  }

  /// For a well-formed cell, a rank is present exactly when a key is.
  lemma ClosenessKeyPresent(f: Faction, p: Pos, c: GridCell, q: Pos)
    requires WellFormed(c)
    ensures ClosenessKey(f, p, c, q).Some? <==> ClosenessRank(c, f).Some?
    ensures ClosenessKey(f, p, c, q).Some? ==> ClosenessKey(f, p, c, q).value.rank == ClosenessRank(c, f).value
  {
    assert WellFormedFor(c, f);
  }

  /// The rank-plus-one distance, the id and the in-range position a cell at
  /// `p` takes over from the neighbour `n` that `FindNearest` chose.
  predicate ArrivesFrom(r: GridCell, f: Faction, p: Pos, n: GridCell)
  {
    ClosenessRank(n, f).Some? &&
    Distance(r, f) == Some(ClosenessRank(n, f).value + 1) && Id(r, f) == Id(n, f) &&
    InRangePosition(r, f) == (if IsUnit(n, f) then Some(p) else InRangePosition(n, f))
  }

  /// The faction `f` fields of two cells agree.
  predicate SameFor(r: GridCell, c: GridCell, f: Faction)
  {
    Id(r, f) == Id(c, f) && Distance(r, f) == Distance(c, f) &&
    InRangePosition(r, f) == InRangePosition(c, f)
  }

  /// The annotation a cell needing one gets from the neighbour `FindNearest`
  /// chose: the neighbour's distance plus one (1 for a unit), the
  /// neighbour's id, and the neighbour's in-range position (the cell itself
  /// when the neighbour is the unit).
  function Annotate(g: Grid, p: Pos, c: GridCell, f: Faction, nearest: GridCell, hit: Pos): (r: GridCell)
    requires Valid(g) && Interior(g, p) && InGrid(g, hit) && At(g, hit) == nearest
    requires !c.isWall && Needs(c, f) && WellFormed(c)
    requires ClosenessRank(nearest, f).Some? && WellFormed(nearest)
    ensures r.isWall == c.isWall && r.isElf == c.isElf && r.isGoblin == c.isGoblin
    ensures WellFormed(r) && SameFor(r, c, Enemy(f)) && ArrivesFrom(r, f, p, nearest)
  {
    assert WellFormedFor(nearest, f);
    var distance, irp := ArrivalDistance(nearest, f), ArrivalPosition(p, At(g, hit), f);
    WithDistanceToWellFormed(c, f, distance, Id(nearest, f).value, irp);
    WithDistanceTo(c, f, distance, Id(nearest, f).value, irp).value
  }

  /// `(nearest.DistanceToXInRange ?? 0) + 1`.
  function ArrivalDistance(nearest: GridCell, f: Faction): int
  {
    (if Distance(nearest, f).Some? then Distance(nearest, f).value else 0) + 1
  }

  /// The cell itself when the hit was on the unit (the neighbour has no
  /// distance), otherwise the neighbour's in-range position.
  function ArrivalPosition(p: Pos, nearest: GridCell, f: Faction): Pos
    requires Distance(nearest, f).Some? ==> InRangePosition(nearest, f).Some?
  {
    if Distance(nearest, f).None? then p else InRangePosition(nearest, f).value
  }

  /// The chosen neighbour of `FindNearest` is ranked and well formed.
  lemma FindNearestRanked(g: Grid, p: Pos, f: Faction)
    requires Valid(g) && Interior(g, p)
    ensures var m := FindNearest(g, p, f);
      m.Some? ==>
        InGrid(g, m.value.1) && At(g, m.value.1) == m.value.0 &&
        WellFormed(m.value.0) && ClosenessRank(m.value.0, f).Some?
  {
    var key := NearestKey(f, p);
    var m := FindNearest(g, p, f);
    if m.Some? {
      var i := FindBestIndex(g, p, key).value;
      var q := Neighbours(p)[i];
      NeighboursInGrid(g, p);
      ClosenessKeyPresent(f, p, At(g, q), q);
    }
  }

  /// One faction's part of the sweep for the cell at `p`: the cell is left
  /// alone when no neighbour is ranked, and otherwise takes what the chosen
  /// neighbour passes on; its kind and the other faction's fields are kept.
  function AnnotateFrom(g: Grid, p: Pos, c: GridCell, f: Faction): (r: GridCell)
    requires Valid(g) && Interior(g, p) && !c.isWall && Needs(c, f) && WellFormed(c)
    ensures r.isWall == c.isWall && r.isElf == c.isElf && r.isGoblin == c.isGoblin
    ensures WellFormed(r) && SameFor(r, c, Enemy(f))
    ensures match FindNearest(g, p, f)
      case None => r == c
      case Some((n, hit)) => ArrivesFrom(r, f, p, n)
  {
    FindNearestRanked(g, p, f);
    match FindNearest(g, p, f)
    case None => c
    case Some((nearest, hit)) => Annotate(g, p, c, f, nearest, hit)
  }

  /// The cell at `p` after one sweep: a wall, or a cell needing neither
  /// annotation, is copied; otherwise first the elf and then the goblin
  /// annotation is looked for among the neighbours in the previous grid.
  function StepCell(g: Grid, p: Pos): GridCell
    requires Valid(g) && InGrid(g, p)
  {
    var last := At(g, p);
    if !last.isWall && (Needs(last, Elves) || Needs(last, Goblins)) then
      var c1 := if Needs(last, Elves) then AnnotateFrom(g, p, last, Elves) else last;
      if Needs(c1, Goblins) then AnnotateFrom(g, p, c1, Goblins) else c1
    else last
  }

  /// The whole grid after one sweep.
  function Step(g: Grid): (r: Grid)
    requires Valid(g)
    ensures |r| == |g| && Rect(r) && Width(r) == Width(g)
    ensures forall p :: InGrid(g, p) ==> InGrid(r, p) && At(r, p) == StepCell(g, p)
  {
    seq(|g|, y requires 0 <= y < |g| =>
      seq(Width(g), x requires 0 <= x < Width(g) => StepCell(g, Pos(x, y))))
  }

  /// One sweep, seen per faction: the kind of every cell is kept and it
  /// stays well formed; a wall, a unit of `f` or an already annotated cell
  /// keeps its `f` fields; a cell needing an annotation gets one exactly
  /// when `FindNearest` finds a neighbour, and takes it from that neighbour.
  lemma StepCellFor(g: Grid, p: Pos, f: Faction)
    requires Valid(g) && InGrid(g, p)
    ensures var c, r := At(g, p), StepCell(g, p);
      r.isWall == c.isWall && r.isElf == c.isElf && r.isGoblin == c.isGoblin &&
      WellFormed(r) && (!c.isWall ==> Interior(g, p))
    ensures var c, r := At(g, p), StepCell(g, p);
      c.isWall || !Needs(c, f) ==> SameFor(r, c, f)
    ensures var c, r := At(g, p), StepCell(g, p);
      !c.isWall && Needs(c, f) && Interior(g, p) ==>
        match FindNearest(g, p, f)
        case None => SameFor(r, c, f)
        case Some((n, hit)) => ArrivesFrom(r, f, p, n)
  {
    var c := At(g, p);
    if !c.isWall && (Needs(c, Elves) || Needs(c, Goblins)) {
      var c1 := if Needs(c, Elves) then AnnotateFrom(g, p, c, Elves) else c;
      assert WellFormed(c1) && SameFor(c1, c, Goblins) && !c1.isWall;
    }
  }

  /// Walls, units and unit ids survive a sweep, and every cell stays well
  /// formed.
  lemma StepValid(g: Grid)
    requires Valid(g)
    ensures Valid(Step(g)) && SameLayout(g, Step(g))
  {
    var h := Step(g);
    forall p | InGrid(g, p)
      ensures At(h, p).isWall == At(g, p).isWall && At(h, p).isElf == At(g, p).isElf
      ensures At(h, p).isGoblin == At(g, p).isGoblin && WellFormed(At(h, p))
      ensures At(g, p).isElf ==> At(h, p).elfId == At(g, p).elfId
      ensures At(g, p).isGoblin ==> At(h, p).goblinId == At(g, p).goblinId
    {
      StepCellFor(g, p, Elves);
      StepCellFor(g, p, Goblins);
    }
  }

  lemma SameLayoutTransitive(g: Grid, h: Grid, k: Grid)
    requires SameLayout(g, h) && SameLayout(h, k)
    ensures SameLayout(g, k)
  {
  }

  /// The number of annotations a cell still lacks (0 for a wall).
  function Weight(c: GridCell): nat
  {
    (if !c.isWall && Needs(c, Elves) then 1 else 0) + (if !c.isWall && Needs(c, Goblins) then 1 else 0)
  }

  function RowMissing(row: seq<GridCell>): nat
  {
    if row == [] then 0 else RowMissing(row[..|row| - 1]) + Weight(row[|row| - 1])
  }

  /// The number of annotations the whole grid still lacks: the measure that
  /// makes the closeness loop terminate.
  function Missing(g: Grid): nat
  {
    if g == [] then 0 else Missing(g[..|g| - 1]) + RowMissing(g[|g| - 1])
  }

  /// A sweep never removes an annotation, and a sweep that changes a cell
  /// adds one to it.
  lemma StepCellWeight(g: Grid, p: Pos)
    requires Valid(g) && InGrid(g, p)
    ensures Weight(StepCell(g, p)) <= Weight(At(g, p))
    ensures StepCell(g, p) != At(g, p) ==> Weight(StepCell(g, p)) < Weight(At(g, p))
  {
    StepCellFor(g, p, Elves);
    StepCellFor(g, p, Goblins);
  }

  /// Pointwise fewer missing annotations give a smaller total, strictly so
  /// when one cell has strictly fewer.
  lemma {:induction false} RowMissingMono(a: seq<GridCell>, b: seq<GridCell>)
    requires |a| == |b| && forall i :: 0 <= i < |a| ==> Weight(b[i]) <= Weight(a[i])
    ensures RowMissing(b) <= RowMissing(a)
    ensures (exists i :: 0 <= i < |a| && Weight(b[i]) < Weight(a[i])) ==> RowMissing(b) < RowMissing(a)
  {
    if a != [] {
      var n := |a| - 1;
      RowMissingMono(a[..n], b[..n]);
      if exists i :: 0 <= i < |a| && Weight(b[i]) < Weight(a[i]) {
        var i :| 0 <= i < |a| && Weight(b[i]) < Weight(a[i]);
        if i < n {
          assert Weight(b[..n][i]) < Weight(a[..n][i]);
        }
      }
    }
  }

  lemma {:induction false} MissingMono(g: Grid, h: Grid)
    requires |g| == |h| && forall y :: 0 <= y < |g| ==> |g[y]| == |h[y]|
    requires forall y, x :: 0 <= y < |g| && 0 <= x < |g[y]| ==> Weight(h[y][x]) <= Weight(g[y][x])
    ensures Missing(h) <= Missing(g)
    ensures (exists y, x :: 0 <= y < |g| && 0 <= x < |g[y]| && Weight(h[y][x]) < Weight(g[y][x])) ==>
      Missing(h) < Missing(g)
  {
    if g != [] {
      var n := |g| - 1;
      MissingMono(g[..n], h[..n]);
      RowMissingMono(g[n], h[n]);
      if exists y, x :: 0 <= y < |g| && 0 <= x < |g[y]| && Weight(h[y][x]) < Weight(g[y][x]) {
        var y, x :| 0 <= y < |g| && 0 <= x < |g[y]| && Weight(h[y][x]) < Weight(g[y][x]);
        if y < n {
          assert Weight(h[..n][y][x]) < Weight(g[..n][y][x]);
        } else {
          assert Weight(h[n][x]) < Weight(g[n][x]);
        }
      }
    }
  }

  /// A sweep never increases the number of missing annotations, and one
  /// that changes the grid decreases it.
  lemma StepDecreases(g: Grid)
    requires Valid(g)
    ensures Missing(Step(g)) <= Missing(g)
    ensures Step(g) != g ==> Missing(Step(g)) < Missing(g)
  {
    var h := Step(g);
    forall y, x | 0 <= y < |g| && 0 <= x < |g[y]|
      ensures Weight(h[y][x]) <= Weight(g[y][x])
      ensures h[y][x] != g[y][x] ==> Weight(h[y][x]) < Weight(g[y][x])
    {
      StepCellWeight(g, Pos(x, y));
      assert At(h, Pos(x, y)) == h[y][x];
    }
    if h != g {
      GridEquality(g, h);
      var p :| InGrid(g, p) && At(g, p) != At(h, p);
      assert h[p.y][p.x] != g[p.y][p.x];
    }
    MissingMono(g, h);
  }

  /// `CalculateCloseness` as a value: sweep until a sweep changes nothing.
  /// The result is a fixed point of the sweep with the same walls and units.
  function Closeness(g: Grid): (r: Grid)
    requires Valid(g)
    ensures Valid(r) && SameLayout(g, r) && Step(r) == r
    decreases Missing(g)
  {
    StepValid(g);
    StepDecreases(g);
    var h := Step(g);
    if h == g then g
    else
      var r := Closeness(h);
      SameLayoutTransitive(g, h, r);
      r
  }

  /// How many changing sweeps `Closeness` performs.
  function Rounds(g: Grid): nat
    requires Valid(g)
    decreases Missing(g)
  {
    StepValid(g);
    StepDecreases(g);
    if Step(g) == g then 0 else 1 + Rounds(Step(g))
  }

  /// One level of `Closeness` and `Rounds`.
  lemma ClosenessUnfold(g: Grid)
    requires Valid(g)
    ensures Step(g) == g ==> Closeness(g) == g && Rounds(g) == 0
    ensures Step(g) != g ==>
      Valid(Step(g)) && Missing(Step(g)) < Missing(g) &&
      Closeness(g) == Closeness(Step(g)) && Rounds(g) == 1 + Rounds(Step(g))
  {
    StepValid(g);
    StepDecreases(g);
  }

  // ---------------------------------------------------------------------
  // Choosing a move
  // ---------------------------------------------------------------------

  /// The faction of a unit cell.
  function UnitFaction(c: GridCell): Faction
  {
    if c.isElf then Elves else Goblins
  }

  /// The sort key `CalculateMove` gives the neighbour `q` of a unit of
  /// faction `f`: none for a unit; otherwise the neighbour's distance to the
  /// enemy, the enemy in-range cell that distance leads to, and `q` itself.
  /// The source dereferences the in-range position of every ranked
  /// neighbour; well-formed cells always have one.
  function MoveKey(f: Faction, c: GridCell, q: Pos): Option<Key>
  {
    if IsAnyUnit(c) then None
    else
      match Distance(c, Enemy(f))
      case None => None
      case Some(d) =>
        match InRangePosition(c, Enemy(f))
        case None => None
        case Some(irp) => Some(Key(d, irp, q))
  }

  /// The selectors `CalculateMove` passes to `FindBest`, as one key.
  function MoveKeyOf(f: Faction): (GridCell, Pos) -> Option<Key>
  {
    (c, q) => MoveKey(f, c, q)
  }

  /// The four unit steps West, East, North, South.
  predicate UnitStep(d: (int, int))
  {
    d == (-1, 0) || d == (1, 0) || d == (0, -1) || d == (0, 1)
  }

  /// A unit is never on the wall ring, so all its neighbours exist.
  lemma UnitInterior(g: Grid, p: Pos)
    requires Valid(g) && InGrid(g, p) && !At(g, p).isWall
    ensures Interior(g, p)
  {
  }

  /// `CalculateMove(grid, x, y)`: the step the unit at `p` takes towards
  /// the nearest enemy in-range cell, or none when it has no reachable enemy
  /// or is already next to one. A cell outside the grid or without a unit
  /// is an error.
  function CalculateMove(g: Grid, p: Pos): (r: Result<Option<(int, int)>>)
    requires Valid(g)
    ensures r.Failure? <==> !InGrid(g, p) || !IsAnyUnit(At(g, p))
    ensures r.Failure? ==> r.error == if InGrid(g, p) then Argument else IndexOutOfRange
    ensures r.Success? && r.value.Some? ==>
      var q := Pos(p.x + r.value.value.0, p.y + r.value.value.1);
      UnitStep(r.value.value) && InGrid(g, q) && Open(At(g, q))
  {
    if !InGrid(g, p) then Failure(IndexOutOfRange)
    else
      var unit := At(g, p);
      if !IsAnyUnit(unit) then Failure(Argument)
      else
        var f := UnitFaction(unit);
        var distance := Distance(unit, Enemy(f));
        if (if distance.Some? then distance.value else 0) <= 1 then Success(None)
        else
          UnitInterior(g, p);
          NeighboursInGrid(g, p);
          match FindBest(g, p, MoveKeyOf(f))
          case None => Success(None)
          case Some(best) =>
            var q := best.1;
            Success(Some((q.x - p.x, q.y - p.y)))
  }

  /// What `CalculateMove` chooses: no move exactly when the unit's enemy
  /// distance is absent or at most 1, or no open neighbour has an enemy
  /// distance; otherwise the step into neighbour `i` (West, East, North,
  /// South) whose key (enemy distance, then the reading order of the
  /// in-range cell it leads to, then the reading order of the neighbour) is
  /// the smallest present one.
  lemma CalculateMoveMeans(g: Grid, p: Pos)
    requires Valid(g) && InGrid(g, p) && IsAnyUnit(At(g, p))
    ensures var f := UnitFaction(At(g, p));
      var d := Distance(At(g, p), Enemy(f));
      CalculateMove(g, p).Success? &&
      (CalculateMove(g, p).value.None? <==>
        d.None? || d.value <= 1 || FindBestIndex(g, p, MoveKeyOf(f)).None?)
    ensures var f := UnitFaction(At(g, p));
      CalculateMove(g, p).value.Some? ==>
      Interior(g, p) &&
      exists i :: 0 <= i < 4 && Neighbours(p)[i] == Pos(p.x + CalculateMove(g, p).value.value.0, p.y + CalculateMove(g, p).value.value.1) &&
        NeighbourKey(g, p, MoveKeyOf(f), i).Some? &&
        forall j :: 0 <= j < 4 && NeighbourKey(g, p, MoveKeyOf(f), j).Some? ==>
          !KeyLess(NeighbourKey(g, p, MoveKeyOf(f), j).value, NeighbourKey(g, p, MoveKeyOf(f), i).value)
  {
    var f := UnitFaction(At(g, p));
    var d := Distance(At(g, p), Enemy(f));
    if d.Some? && d.value > 1 {
      UnitInterior(g, p);
      var i := FindBestIndex(g, p, MoveKeyOf(f));
      if i.Some? {
        assert Neighbours(p)[i.value] == Pos(p.x + CalculateMove(g, p).value.value.0, p.y + CalculateMove(g, p).value.value.1);
      }
    }
  }

  /// A neighbour has a move key exactly when it is open floor with a
  /// distance to the enemy; the key's rank is that distance.
  lemma MoveKeyPresent(f: Faction, c: GridCell, q: Pos)
    requires WellFormed(c)
    ensures MoveKey(f, c, q).Some? <==> !IsAnyUnit(c) && Distance(c, Enemy(f)).Some?
    ensures MoveKey(f, c, q).Some? ==>
      MoveKey(f, c, q).value == Key(Distance(c, Enemy(f)).value, InRangePosition(c, Enemy(f)).value, q)
  {
    assert WellFormedFor(c, Enemy(f));
  }

  // ---------------------------------------------------------------------
  // The sweep and the loop over sweeps, on arrays
  // ---------------------------------------------------------------------

  /// Some row above row `y` changes in a sweep.
  ghost predicate ChangedAbove(g: Grid, y: int)
    requires Valid(g) && y <= |g|
  {
    exists yy :: 0 <= yy < y && Step(g)[yy] != g[yy]
  }

  lemma ChangedAboveAll(g: Grid)
    requires Valid(g)
    ensures ChangedAbove(g, |g|) <==> Step(g) != g
  {
    var h := Step(g);
    if h != g {
      var yy :| 0 <= yy < |g| && h[yy] != g[yy];
    }
  }

  /// The prefix of one more element.
  lemma PrefixNext(s: seq<GridCell>, x: int)
    requires 0 <= x < |s|
    ensures s[..x + 1] == s[..x] + [s[x]]
  {
  }

  /// Extending two sequences of the same length by one element each:
  /// the results differ exactly when the prefixes or the new elements do.
  lemma AppendDiffers(a: seq<GridCell>, b: seq<GridCell>, c: GridCell, d: GridCell)
    requires |a| == |b|
    ensures a + [c] != b + [d] <==> a != b || c != d
  {
    if a + [c] == b + [d] {
      assert a == (a + [c])[..|a|] && b == (b + [d])[..|b|];
      assert c == (a + [c])[|a|] && d == (b + [d])[|b|];
    }
  }

  /// The body of the sweep for the cell at `p`: the elf annotation is
  /// looked for first, then the goblin one; `changed` reports whether either
  /// was found.
  method ProcessCell(g: Grid, p: Pos) returns (newCell: GridCell, changed: bool)
    requires Valid(g) && InGrid(g, p)
    ensures newCell == StepCell(g, p) == Step(g)[p.y][p.x]
    ensures changed <==> newCell != At(g, p)
  {
    assert At(Step(g), p) == StepCell(g, p);
    var lastCell := At(g, p);
    newCell := lastCell;
    changed := false;
    if !lastCell.isWall && (Needs(lastCell, Elves) || Needs(lastCell, Goblins)) {
      if Needs(lastCell, Elves) {
        var elfNearest := FindNearest(g, p, Elves);
        FindNearestRanked(g, p, Elves);
        if elfNearest.Some? {
          newCell := Annotate(g, p, newCell, Elves, elfNearest.value.0, elfNearest.value.1);
          changed := true;
        }
      }
      if Needs(newCell, Goblins) {
        var goblinNearest := FindNearest(g, p, Goblins);
        FindNearestRanked(g, p, Goblins);
        if goblinNearest.Some? {
          newCell := Annotate(g, p, newCell, Goblins, goblinNearest.value.0, goblinNearest.value.1);
          changed := true;
        }
      }
    }
  }

  /// `CalculateCloseness`: sweeps until a sweep changes nothing and
  /// returns the last grid built; the argument itself is not written to.
  method CalculateCloseness(grid: array2<GridCell>) returns (r: array2<GridCell>)
    requires Valid(Snapshot(grid))
    ensures fresh(r)
    ensures r.Length0 == grid.Length0 && r.Length1 == grid.Length1
    ensures Snapshot(r) == Closeness(Snapshot(grid))
  {
    var workToDo;
    ghost var g0 := Snapshot(grid);
    ClosenessUnfold(g0);
    r, workToDo := ProcessOneClosenessStep(grid);
    while workToDo
      invariant fresh(r) && r.Length0 == grid.Length0 && r.Length1 == grid.Length1
      invariant Valid(Snapshot(r)) && Closeness(Snapshot(r)) == Closeness(g0)
      invariant !workToDo ==> Step(Snapshot(r)) == Snapshot(r)
      decreases Missing(Snapshot(r)) + if workToDo then 1 else 0
    {
      ghost var before := Snapshot(r);
      ClosenessUnfold(before);
      r, workToDo := ProcessOneClosenessStep(r);
      ClosenessUnfold(Snapshot(r));
    }
    ClosenessUnfold(Snapshot(r));
  }

  /// The closeness calculation on a grid pair, as `GameState` uses it: the
  /// primary grid ends up holding the converged closeness data.
  method CalculateClosenessOfPair(pair: GridPair)
    requires Valid(Snapshot(pair.primary))
    modifies pair.primary
    ensures Snapshot(pair.primary) == Closeness(old(Snapshot(pair.primary)))
  {
    var r := CalculateCloseness(pair.primary);
    CopyGrid(r, pair.primary);
  }

  /// Copies every cell of `src` into `dst`.
  method CopyGrid(src: array2<GridCell>, dst: array2<GridCell>)
    requires src != dst && src.Length0 == dst.Length0 && src.Length1 == dst.Length1
    modifies dst
    ensures Snapshot(dst) == Snapshot(src)
  {
    ghost var g := Snapshot(src);
    for y := 0 to dst.Length0
      invariant Snapshot(src) == g
      invariant forall yy, xx :: 0 <= yy < y && 0 <= xx < dst.Length1 ==> dst[yy, xx] == g[yy][xx]
    {
      CopyRow(dst, y, Snapshot(src)[y]);
    }
    GridEquality(Snapshot(dst), g);
  }

  /// `ProcessOneClosenessStep`: builds the swept grid in a new array, cell
  /// by cell in reading order, and reports whether any cell was annotated.
  method ProcessOneClosenessStep(lastGrid: array2<GridCell>) returns (newGrid: array2<GridCell>, changed: bool)
    requires Valid(Snapshot(lastGrid))
    ensures fresh(newGrid) && newGrid.Length0 == lastGrid.Length0 && newGrid.Length1 == lastGrid.Length1
    ensures Snapshot(newGrid) == Step(Snapshot(lastGrid))
    ensures changed <==> Step(Snapshot(lastGrid)) != Snapshot(lastGrid)
  {
    var height, width := lastGrid.Length0, lastGrid.Length1;
    var g := Snapshot(lastGrid);
    ghost var h := Step(g);
    changed := false;
    newGrid := new GridCell[height, width]((_, _) => Empty());
    for y := 0 to height
      invariant forall yy, xx :: 0 <= yy < y && 0 <= xx < width ==> newGrid[yy, xx] == h[yy][xx]
      invariant changed <==> ChangedAbove(g, y)
    {
      var row, rowChanged := ProcessRow(g, y);
      CopyRow(newGrid, y, row);
      changed := changed || rowChanged;
    }
    ChangedAboveAll(g);
    GridEquality(Snapshot(newGrid), h);
  }

  /// The inner loop of `ProcessOneClosenessStep`: the swept cells of row
  /// `y`, and whether any of them changed.
  method ProcessRow(g: Grid, y: int) returns (row: seq<GridCell>, changed: bool)
    requires Valid(g) && 0 <= y < |g|
    ensures row == Step(g)[y]
    ensures changed <==> row != g[y]
  {
    row := [];
    changed := false;
    for x := 0 to Width(g)
      invariant |row| == x
      invariant row == Step(g)[y][..x]
      invariant changed <==> row != g[y][..x]
    {
      var newCell, cellChanged := ProcessCell(g, Pos(x, y));
      AppendDiffers(row, g[y][..x], newCell, g[y][x]);
      PrefixNext(g[y], x);
      PrefixNext(Step(g)[y], x);
      changed := changed || cellChanged;
      row := row + [newCell];
    }
    assert g[y][..|row|] == g[y];
    assert Step(g)[y][..|row|] == Step(g)[y];
  }

  /// Stores `row` as row `y` of `a`.
  method CopyRow(a: array2<GridCell>, y: int, row: seq<GridCell>)
    requires 0 <= y < a.Length0 && |row| == a.Length1
    modifies a
    ensures forall yy, xx :: 0 <= yy < a.Length0 && yy != y && 0 <= xx < a.Length1 ==>
      a[yy, xx] == old(a[yy, xx])
    ensures forall xx :: 0 <= xx < a.Length1 ==> a[y, xx] == row[xx]
  {
    for x := 0 to a.Length1
      invariant forall yy, xx :: 0 <= yy < a.Length0 && yy != y && 0 <= xx < a.Length1 ==>
        a[yy, xx] == old(a[yy, xx])
      invariant forall xx :: 0 <= xx < x ==> a[y, xx] == row[xx]
    {
      a[y, x] := row[x];
    }
  }
}

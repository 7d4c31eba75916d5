/// What the closeness annotations mean (Day15/GridOperations.cs,
/// `CalculateCloseness`): each sweep extends every annotation by one step,
/// so that at the fixed point a cell's distance to a faction is the length
/// of the shortest path to one of that faction's units through open floor,
/// and absent exactly when there is no such path.
module Day15Closeness {
  import opened Wrappers
  import opened Day15GridCell
  import opened Day15GridOperations

  /// A path of at most `k` steps leads from `p` to a unit of `f`: one of the
  /// four neighbours is such a unit, or is open floor with a path of at most
  /// `k - 1` steps of its own. Only the layout of `g` matters.
  ghost predicate Reach(g: Grid, f: Faction, p: Pos, k: int)
    requires Rect(g)
    decreases k, 1
  {
    k >= 1 && Interior(g, p) && exists i :: 0 <= i < 4 && Via(g, f, Neighbours(p)[i], k)
  }

  /// The first step of such a path goes to `n`.
  ghost predicate Via(g: Grid, f: Faction, n: Pos, k: int)
    requires Rect(g)
    decreases k, 0
  {
    k >= 1 && InGrid(g, n) && (IsUnit(At(g, n), f) || (Open(At(g, n)) && Reach(g, f, n, k - 1)))
  }

  ghost predicate Reachable(g: Grid, f: Faction, p: Pos)
    requires Rect(g)
  {
    exists k :: Reach(g, f, p, k)
  }

  /// `d` is the length of a shortest path.
  ghost predicate Shortest(g: Grid, f: Faction, p: Pos, d: int)
    requires Rect(g)
  {
    Reach(g, f, p, d) && forall k :: Reach(g, f, p, k) ==> d <= k
  }

  /// Some unit of `f` in `g` carries the id `id`.
  ghost predicate UnitWithId(g: Grid, f: Faction, id: Option<int>)
    requires Rect(g)
  {
    exists u :: InGrid(g, u) && IsUnit(At(g, u), f) && Id(At(g, u), f) == id
  }

  /// The unit of `f` at `u` carries the id `id`.
  ghost predicate UnitAt(g: Grid, f: Faction, u: Pos, id: Option<int>)
    requires Rect(g)
  {
    InGrid(g, u) && IsUnit(At(g, u), f) && Id(At(g, u), f) == id
  }

  /// `p` is `d` steps from a unit of `f` carrying `id`, by a path whose
  /// last cell before the unit is `t`: `p` itself next to the unit when
  /// `d` is 1, otherwise the path goes on through an open neighbour.
  ghost predicate Leads(g: Grid, f: Faction, p: Pos, t: Pos, id: Option<int>, d: int)
    requires Rect(g)
    decreases d, 1
  {
    d >= 1 && Interior(g, p) &&
    if d == 1 then t == p && exists i :: 0 <= i < 4 && UnitAt(g, f, Neighbours(p)[i], id)
    else exists i :: 0 <= i < 4 && LeadsVia(g, f, Neighbours(p)[i], t, id, d)
  }

  /// The path of `d` steps goes on through the open cell `m`.
  ghost predicate LeadsVia(g: Grid, f: Faction, m: Pos, t: Pos, id: Option<int>, d: int)
    requires Rect(g)
    decreases d, 0
  {
    d >= 2 && InGrid(g, m) && Open(At(g, m)) && Leads(g, f, m, t, id, d - 1)
  }

  /// Such a path is a path of `d` steps to a unit of `f`; the unit carries
  /// `id`; its in-range cell `t` is next to that unit and is `p` itself or
  /// open floor.
  lemma {:induction false} LeadsMeans(g: Grid, f: Faction, p: Pos, t: Pos, id: Option<int>, d: int)
    requires Rect(g) && Leads(g, f, p, t, id, d)
    ensures Reach(g, f, p, d) && UnitWithId(g, f, id) && Reach(g, f, t, 1)
    ensures t == p || (InGrid(g, t) && Open(At(g, t)))
    decreases d
  {
    if d == 1 {
      var i :| 0 <= i < 4 && UnitAt(g, f, Neighbours(p)[i], id);
      assert Via(g, f, Neighbours(p)[i], 1);
    } else {
      var i :| 0 <= i < 4 && LeadsVia(g, f, Neighbours(p)[i], t, id, d);
      var m := Neighbours(p)[i];
      LeadsMeans(g, f, m, t, id, d - 1);
      assert Via(g, f, m, d);
    }
  }

  /// A path of at most `k` steps is also one of at most `m >= k` steps.
  lemma {:induction false} ReachMonotone(g: Grid, f: Faction, p: Pos, k: int, m: int)
    requires Rect(g) && Reach(g, f, p, k) && k <= m
    ensures Reach(g, f, p, m)
    decreases k
  {
    var i :| 0 <= i < 4 && Via(g, f, Neighbours(p)[i], k);
    var n := Neighbours(p)[i];
    if !IsUnit(At(g, n), f) {
      ReachMonotone(g, f, n, k - 1, m - 1);
    }
    assert Via(g, f, n, m);
  }

  /// What one cell of the grid `h`, reached from the unannotated grid `g0`
  /// by `k` sweeps, says about faction `f`: it is annotated exactly when a
  /// path of at most `k` steps exists; its distance `d` is at most `k` and
  /// is the shortest path length; a path of `d` steps leads from `p` to
  /// its in-range position and on to the unit of `f` its id names.
  ghost predicate CellInv(g0: Grid, h: Grid, f: Faction, p: Pos, k: int)
    requires Rect(g0) && Rect(h) && InGrid(h, p)
  {
    CellMeans(g0, At(h, p), f, p, k)
  }

  /// The same, for the cell value `c` at `p`.
  ghost predicate CellMeans(g0: Grid, c: GridCell, f: Faction, p: Pos, k: int)
    requires Rect(g0)
  {
    !c.isWall && !IsUnit(c, f) ==>
      (Distance(c, f).Some? <==> Reach(g0, f, p, k)) &&
      (Distance(c, f).Some? ==>
        var d := Distance(c, f).value;
        d <= k && Reach(g0, f, p, d) && !Reach(g0, f, p, d - 1) &&
        InRangePosition(c, f).Some? && Leads(g0, f, p, InRangePosition(c, f).value, Id(c, f), d))
  }

  ghost predicate Inv(g0: Grid, h: Grid, k: int)
  {
    Valid(h) && SameLayout(g0, h) && k >= 0 &&
    forall f, p :: InGrid(h, p) ==> CellInv(g0, h, f, p, k)
  }

  ghost predicate AllBare(g: Grid)
  {
    Rect(g) && forall p :: InGrid(g, p) ==> Bare(At(g, p))
  }

  /// Before any sweep nothing is annotated and no path has length 0.
  lemma InvStart(g0: Grid)
    requires Valid(g0) && AllBare(g0)
    ensures Inv(g0, g0, 0)
  {
    forall f, p | InGrid(g0, p) ensures CellInv(g0, g0, f, p, 0) {
      assert Bare(At(g0, p));
    }
  }

  /// A neighbour that starts a path of at most `r <= k + 1` steps has a key
  /// in `FindNearest`, and its rank is below `r`.
  lemma ViaHasKey(g0: Grid, h: Grid, k: int, f: Faction, p: Pos, j: int, r: int)
    requires Inv(g0, h, k) && Interior(h, p) && 0 <= j < 4 && 1 <= r <= k + 1
    requires Via(g0, f, Neighbours(p)[j], r)
    ensures var key := NeighbourKey(h, p, NearestKey(f, p), j); key.Some? && key.value.rank < r
  {
    var m := Neighbours(p)[j];
    NeighboursInGrid(h, p);
    var c := At(h, m);
    assert WellFormed(c) && WellFormedFor(c, f);
    assert IsUnit(At(g0, m), f) == IsUnit(c, f) && Open(At(g0, m)) == Open(c);
    if !IsUnit(c, f) {
      assert CellInv(g0, h, f, m, k);
      AnnotatedBelow(g0, c, f, m, k, r - 1);
    }
  }

  /// A cell with a path of at most `r <= k` steps is annotated, with a
  /// distance of at most `r`.
  lemma AnnotatedBelow(g0: Grid, c: GridCell, f: Faction, m: Pos, k: int, r: int)
    requires Rect(g0) && CellMeans(g0, c, f, m, k) && !c.isWall && !IsUnit(c, f)
    requires Reach(g0, f, m, r) && r <= k
    ensures Distance(c, f).Some? && Distance(c, f).value <= r
  {
    ReachMonotone(g0, f, m, r, k);
    var dm := Distance(c, f).value;
    if dm - 1 >= r {
      ReachMonotone(g0, f, m, r, dm - 1);
    }
  }

  /// A cell for which `FindNearest` finds nothing has no path of at most
  /// `k + 1` steps.
  lemma InvStepNotFound(g0: Grid, h: Grid, k: int, f: Faction, p: Pos)
    requires Inv(g0, h, k) && Interior(h, p) && FindNearest(h, p, f).None?
    ensures !Reach(g0, f, p, k + 1)
  {
    if Reach(g0, f, p, k + 1) {
      var j :| 0 <= j < 4 && Via(g0, f, Neighbours(p)[j], k + 1);
      ViaHasKey(g0, h, k, f, p, j, k + 1);
      assert false;
    }
  }

  /// The neighbour `n` that `FindNearest` picks for `p` lies on a shortest
  /// path: its rank is at most `k`, `p` is one step further, no path from
  /// `p` is as short as the rank, and `p`'s path goes through `n` (or ends
  /// next to it, when `n` is a unit of `f`) to `n`'s in-range cell and unit.
  ghost predicate Feeds(g0: Grid, n: GridCell, f: Faction, p: Pos, k: int)
    requires Rect(g0)
  {
    ClosenessRank(n, f).Some? && (!IsUnit(n, f) ==> InRangePosition(n, f).Some?) &&
    var rank := ClosenessRank(n, f).value;
    rank <= k && Reach(g0, f, p, rank + 1) && !Reach(g0, f, p, rank) &&
    Leads(g0, f, p, if IsUnit(n, f) then p else InRangePosition(n, f).value, Id(n, f), rank + 1)
  }

  /// The neighbour `FindNearest` picks lies on a path of `rank + 1` steps,
  /// and no path is shorter.
  lemma InvStepFound(g0: Grid, h: Grid, k: int, f: Faction, p: Pos)
    requires Inv(g0, h, k) && Interior(h, p) && FindNearest(h, p, f).Some?
    ensures Feeds(g0, FindNearest(h, p, f).value.0, f, p, k)
  {
    var key := NearestKey(f, p);
    var i := FindBestIndex(h, p, key).value;
    var hit := Neighbours(p)[i];
    NeighboursInGrid(h, p);
    FindNearestRanked(h, p, f);
    var n := At(h, hit);
    assert FindNearest(h, p, f).value.0 == n;
    var rank := ClosenessRank(n, f).value;
    assert WellFormed(n) && WellFormedFor(n, f);
    assert IsUnit(At(g0, hit), f) == IsUnit(n, f) && Open(At(g0, hit)) == Open(n);
    if IsUnit(n, f) {
      assert Id(n, f) == Id(At(g0, hit), f);
      FeedsNextToUnit(g0, n, f, p, i, k);
    } else {
      assert CellInv(g0, h, f, hit, k);
      NotShorter(g0, h, k, f, p, rank);
      FeedsThrough(g0, n, f, p, i, k);
    }
  }

  /// A unit of `f` next to `p` puts `p` one step from it, in range itself.
  lemma FeedsNextToUnit(g0: Grid, n: GridCell, f: Faction, p: Pos, i: int, k: int)
    requires Rect(g0) && Interior(g0, p) && 0 <= i < 4 && k >= 0
    requires IsUnit(n, f) && ClosenessRank(n, f) == Some(0)
    requires UnitAt(g0, f, Neighbours(p)[i], Id(n, f))
    ensures Feeds(g0, n, f, p, k)
  {
    assert Via(g0, f, Neighbours(p)[i], 1);
  }

  /// An open neighbour `m` of `p` whose path of `rank` steps leads to
  /// `t` and its unit gives `p` a path of `rank + 1` steps to the same
  /// cell and unit; when no path from `p` is as short as `rank`, it is a
  /// shortest one.
  lemma FeedsThrough(g0: Grid, n: GridCell, f: Faction, p: Pos, i: int, k: int)
    requires Rect(g0) && Interior(g0, p) && 0 <= i < 4
    requires var m := Neighbours(p)[i]; InGrid(g0, m) && Open(At(g0, m))
    requires !IsUnit(n, f) && ClosenessRank(n, f).Some? && InRangePosition(n, f).Some?
    requires var rank := ClosenessRank(n, f).value;
      1 <= rank <= k && !Reach(g0, f, p, rank) &&
      Leads(g0, f, Neighbours(p)[i], InRangePosition(n, f).value, Id(n, f), rank)
    ensures Feeds(g0, n, f, p, k)
  {
    var m, rank := Neighbours(p)[i], ClosenessRank(n, f).value;
    LeadsMeans(g0, f, m, InRangePosition(n, f).value, Id(n, f), rank);
    assert Via(g0, f, m, rank + 1);
    assert LeadsVia(g0, f, m, InRangePosition(n, f).value, Id(n, f), rank + 1);
  }

  /// No path is shorter than the rank of the neighbour `FindNearest` picks.
  lemma NotShorter(g0: Grid, h: Grid, k: int, f: Faction, p: Pos, rank: int)
    requires Inv(g0, h, k) && Interior(h, p) && FindNearest(h, p, f).Some?
    requires var key := NearestKey(f, p); var i := FindBestIndex(h, p, key).value;
      rank == NeighbourKey(h, p, key, i).value.rank && 1 <= rank <= k + 1
    ensures !Reach(g0, f, p, rank)
  {
    if Reach(g0, f, p, rank) {
      var j :| 0 <= j < 4 && Via(g0, f, Neighbours(p)[j], rank);
      ViaHasKey(g0, h, k, f, p, j, rank);
      assert false;
    }
  }

  /// A sweep turns the picture after `k` sweeps into the one after `k + 1`.
  lemma InvStep(g0: Grid, h: Grid, k: int)
    requires Inv(g0, h, k)
    ensures Inv(g0, Step(h), k + 1)
  {
    var h', k' := Step(h), k + 1;
    StepValid(h);
    SameLayoutTransitive(g0, h, h');
    forall f: Faction, p: Pos | InGrid(h', p) ensures CellInv(g0, h', f, p, k') {
      InvStepCell(g0, h, k, f, p);
      assert At(h', p) == StepCell(h, p);
    }
  }

  lemma InvStepCell(g0: Grid, h: Grid, k: int, f: Faction, p: Pos)
    requires Inv(g0, h, k) && InGrid(h, p)
    ensures CellMeans(g0, StepCell(h, p), f, p, k + 1)
  {
    var c := At(h, p);
    StepCellFor(h, p, f);
    assert CellInv(g0, h, f, p, k);
    if !c.isWall && !IsUnit(c, f) {
      if Distance(c, f).Some? {
        InvStepKept(g0, h, k, f, p);
      } else if FindNearest(h, p, f).Some? {
        InvStepAdded(g0, h, k, f, p);
      } else {
        InvStepNotFound(g0, h, k, f, p);
      }
    }
  }

  /// The annotation `r` carries for `f` at `p` holds after `k` sweeps: its
  /// distance `d` is at most `k`, no shorter path exists, and a path of `d`
  /// steps leads to its in-range position and unit.
  ghost predicate Settled(g0: Grid, r: GridCell, f: Faction, p: Pos, k: int)
    requires Rect(g0)
  {
    Distance(r, f).Some? &&
    var d := Distance(r, f).value;
    d <= k && Reach(g0, f, p, d) && !Reach(g0, f, p, d - 1) && Reach(g0, f, p, k) &&
    InRangePosition(r, f).Some? && Leads(g0, f, p, InRangePosition(r, f).value, Id(r, f), d)
  }

  /// An annotation the sweep keeps stays true one sweep later.
  lemma InvStepKept(g0: Grid, h: Grid, k: int, f: Faction, p: Pos)
    requires Valid(h) && Rect(g0) && InGrid(h, p) && CellInv(g0, h, f, p, k)
    requires var c := At(h, p); !c.isWall && !IsUnit(c, f) && Distance(c, f).Some?
    requires SameFor(StepCell(h, p), At(h, p), f)
    ensures Settled(g0, StepCell(h, p), f, p, k + 1)
  {
    ReachMonotone(g0, f, p, k, k + 1);
  }

  /// A new annotation is true one sweep later.
  lemma InvStepAdded(g0: Grid, h: Grid, k: int, f: Faction, p: Pos)
    requires Inv(g0, h, k) && Interior(h, p) && FindNearest(h, p, f).Some?
    requires ArrivesFrom(StepCell(h, p), f, p, FindNearest(h, p, f).value.0)
    ensures Settled(g0, StepCell(h, p), f, p, k + 1)
  {
    InvStepFound(g0, h, k, f, p);
    InvStepNew(g0, StepCell(h, p), FindNearest(h, p, f).value.0, k, f, p);
  }

  /// A new annotation taken from a neighbour of rank `rank` that lies on a
  /// shortest path is true one sweep later: the cell's path goes through
  /// that neighbour to the neighbour's in-range cell and unit.
  lemma InvStepNew(g0: Grid, r: GridCell, n: GridCell, k: int, f: Faction, p: Pos)
    requires Rect(g0) && ArrivesFrom(r, f, p, n) && Feeds(g0, n, f, p, k)
    ensures Settled(g0, r, f, p, k + 1)
  {
    ReachMonotone(g0, f, p, ClosenessRank(n, f).value + 1, k + 1);
  }

  /// A fixed point of the sweep keeps its meaning for any larger bound.
  lemma {:induction false} InvFixed(g0: Grid, h: Grid, k: int, m: int)
    requires Inv(g0, h, k) && Step(h) == h && k <= m
    ensures Inv(g0, h, m)
    decreases m - k
  {
    if k < m {
      InvStep(g0, h, k);
      InvFixed(g0, h, k + 1, m);
    }
  }

  /// The sweeps `Closeness` performs carry the meaning along, to some
  /// bound `n` on the path lengths settled.
  lemma {:induction false} InvClosure(g0: Grid, h: Grid, k: int) returns (n: int)
    requires Inv(g0, h, k)
    ensures Inv(g0, Closeness(h), n)
    decreases Missing(h)
  {
    ClosenessUnfold(h);
    if Step(h) != h {
      InvStep(g0, h, k);
      n := InvClosure(g0, Step(h), k + 1);
    } else {
      n := k;
    }
  }

  /// What a converged cell says about faction `f`: it has a distance
  /// exactly when some path leads to a unit of `f`, and then the distance
  /// `d` is the length of a shortest such path, and one such path of `d`
  /// steps runs through open floor to the in-range position (the cell itself
  /// when `d` is 1) and on to the adjacent unit of `f` that carries the id.
  ghost predicate Means(g0: Grid, r: Grid, f: Faction, p: Pos)
    requires Rect(g0) && Rect(r) && InGrid(r, p)
  {
    var c := At(r, p);
    !c.isWall && !IsUnit(c, f) ==>
      (Distance(c, f).Some? <==> Reachable(g0, f, p)) &&
      (Distance(c, f).Some? ==>
        Shortest(g0, f, p, Distance(c, f).value) && UnitWithId(g0, f, Id(c, f)) &&
        InRangePosition(c, f).Some? && Reach(g0, f, InRangePosition(c, f).value, 1) &&
        (var t := InRangePosition(c, f).value;
         (t == p || (InGrid(g0, t) && Open(At(g0, t)))) &&
         Leads(g0, f, p, t, Id(c, f), Distance(c, f).value)))
  }

  /// `CalculateCloseness` on a map without annotations computes, for every
  /// non-wall cell and each faction it is not a unit of, the shortest path
  /// length through open floor to one of that faction's units, the in-range
  /// cell such a shortest path ends on and the id of the unit next to it,
  /// and nothing where there is no such path.
  lemma ClosenessMeaning(g0: Grid)
    requires Valid(g0) && AllBare(g0)
    ensures SameLayout(g0, Closeness(g0))
    ensures forall f, p :: InGrid(Closeness(g0), p) ==> Means(g0, Closeness(g0), f, p)
  {
    InvStart(g0);
    var n := InvClosure(g0, g0, 0);
    Converged(g0, Closeness(g0), n);
  }

  lemma Converged(g0: Grid, r: Grid, n: int)
    requires Inv(g0, r, n) && Step(r) == r
    ensures forall f, p :: InGrid(r, p) ==> Means(g0, r, f, p)
  {
    forall f, p | InGrid(r, p) ensures Means(g0, r, f, p) {
      ConvergedCell(g0, r, n, f, p);
    }
  }

  lemma ConvergedCell(g0: Grid, r: Grid, n: int, f: Faction, p: Pos)
    requires Inv(g0, r, n) && Step(r) == r && InGrid(r, p)
    ensures Means(g0, r, f, p)
  {
    var c := At(r, p);
    assert CellInv(g0, r, f, p, n);
    if !c.isWall && !IsUnit(c, f) {
      if Distance(c, f).Some? {
        ShortestFrom(g0, c, f, p, n);
        LeadsMeans(g0, f, p, InRangePosition(c, f).value, Id(c, f), Distance(c, f).value);
      } else if Reachable(g0, f, p) {
        var m :| Reach(g0, f, p, m);
        var m' := if m < n then n else m;
        ReachMonotone(g0, f, p, m, m');
        InvFixed(g0, r, n, m');
        assert false;
      }
    }
  }

  /// A distance that no shorter path undercuts is the shortest.
  lemma ShortestFrom(g0: Grid, c: GridCell, f: Faction, p: Pos, n: int)
    requires Rect(g0) && CellMeans(g0, c, f, p, n) && !c.isWall && !IsUnit(c, f)
    requires Distance(c, f).Some?
    ensures Reachable(g0, f, p) && Shortest(g0, f, p, Distance(c, f).value)
  {
    var d := Distance(c, f).value;
    forall m | Reach(g0, f, p, m) ensures d <= m {
      if m < d {
        ReachMonotone(g0, f, p, m, d - 1);
      }
    }
  }
}

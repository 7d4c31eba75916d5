/// `GameState` (Day15/GameState.cs) on arrays: the grid pair whose primary
/// grid is the map, both factions' hit points, and the elves' attack power.
/// `Start` and `PlayRound` are proved to compute `RegisterAll` and `Round`
/// from `Day15Battle`.
module Day15GameState {
  import opened Wrappers
  import opened Day15GridCell
  import opened Day15GridPair
  import opened Day15GridOperations
  import opened Day15Battle

  /// The state between rounds. The source's hit-point dictionaries are
  /// immutable and replaced on every change; they are maps here.
  datatype GameState = GameState(
    gridPair: GridPair,
    elfHitPoints: map<int, int>,
    goblinHitPoints: map<int, int>,
    elfAttackPower: int)

  function HitPointsOf(s: GameState): HitPoints
  {
    HitPoints(s.elfHitPoints, s.goblinHitPoints)
  }

  /// The battle the state stands for.
  function BattleOf(s: GameState): Battle
    reads s.gridPair.primary
  {
    Battle(Snapshot(s.gridPair.primary), HitPointsOf(s))
  }

  // ---------------------------------------------------------------------
  // Loops in reading order
  // ---------------------------------------------------------------------

  /// The rows `k` up to `h` of an `h` by `w` grid, in reading order.
  function RowsFrom(k: nat, h: nat, w: nat): seq<Pos>
    decreases h - k
  {
    if k >= h then [] else RowPositions(k, w) + RowsFrom(k + 1, h, w)
  }

  /// The first `k` rows are a prefix of the reading order.
  lemma {:induction false} ReadingOrderSplit(k: nat, h: nat, w: nat)
    requires k <= h
    ensures ReadingOrder(h, w) == ReadingOrder(k, w) + RowsFrom(k, h, w)
    decreases h - k
  {
    if k < h {
      ReadingOrderSplit(k + 1, h, w);
      assert ReadingOrder(k + 1, w) == ReadingOrder(k, w) + RowPositions(k, w);
    }
  }

  /// Where the nested loops stand at row `y`, column `x`: the positions
  /// visited so far.
  function Visited(y: nat, x: nat, w: nat): seq<Pos>
    requires x <= w
  {
    ReadingOrder(y, w) + RowPositions(y, w)[..x]
  }

  lemma VisitedNext(y: nat, x: nat, w: nat)
    requires x < w
    ensures Visited(y, x + 1, w) == Visited(y, x, w) + [Pos(x, y)]
    ensures x + 1 == w ==> Visited(y, x + 1, w) == Visited(y + 1, 0, w)
  {
    assert RowPositions(y, w)[..x + 1] == RowPositions(y, w)[..x] + [Pos(x, y)];
    if x + 1 == w {
      assert RowPositions(y, w)[..x + 1] == RowPositions(y, w);
    }
  }

  /// The visited positions lie in the grid.
  lemma VisitedInGrid(g: Grid, y: nat, x: nat)
    requires Rect(g) && x <= Width(g) && (y < |g| || (y == |g| && x == 0))
    ensures forall p :: p in Visited(y, x, Width(g)) ==> InGrid(g, p)
  {
    ReadingOrderMeans(y, Width(g));
  }

  /// Registering the units on the positions visited so far.
  function RegisteredTo(g: Grid, y: nat, x: nat): Result<HitPoints>
    requires Rect(g) && x <= Width(g) && (y < |g| || (y == |g| && x == 0))
  {
    VisitedInGrid(g, y, x);
    RegisterAll(g, Visited(y, x, Width(g)))
  }

  /// The units on the positions visited so far.
  function UnitsTo(g: Grid, y: nat, x: nat): seq<Pos>
    requires Rect(g) && x <= Width(g) && (y < |g| || (y == |g| && x == 0))
  {
    VisitedInGrid(g, y, x);
    UnitsAmong(g, Visited(y, x, Width(g)))
  }

  /// One more cell visited: its position is listed if a unit stands there.
  lemma UnitsVisitedStep(g: Grid, y: nat, x: nat)
    requires Rect(g) && y < |g| && x < Width(g)
    ensures UnitsTo(g, y, x + 1) == UnitsTo(g, y, x) + if IsAnyUnit(At(g, Pos(x, y))) then [Pos(x, y)] else []
  {
    VisitedInGrid(g, y, x + 1);
    VisitedNext(y, x, Width(g));
    var ps := Visited(y, x + 1, Width(g));
    assert ps[..|ps| - 1] == Visited(y, x, Width(g));
  }

  /// Once registering fails, it fails for every longer list of positions.
  lemma {:induction false} RegisterAllFails(g: Grid, ps: seq<Pos>, qs: seq<Pos>)
    requires Rect(g) && (forall p :: p in ps ==> InGrid(g, p)) && forall p :: p in qs ==> InGrid(g, p)
    requires RegisterAll(g, ps).Failure?
    ensures RegisterAll(g, ps + qs) == RegisterAll(g, ps)
    decreases |qs|
  {
    if qs == [] {
      assert ps + qs == ps;
    } else {
      var n := |qs| - 1;
      assert forall p :: p in qs[..n] ==> p in qs;
      RegisterAllFails(g, ps, qs[..n]);
      var all := ps + qs;
      assert all[..|all| - 1] == ps + qs[..n];
      assert forall p :: p in all ==> InGrid(g, p);
      assert RegisterAll(g, all) == RegisterAll(g, all[..|all| - 1]).PropagateFailure();
    }
  }

  /// One more cell visited: registering goes on from where it stood.
  lemma RegisterVisitedStep(g: Grid, y: nat, x: nat)
    requires Rect(g) && y < |g| && x < Width(g)
    requires RegisteredTo(g, y, x).Success?
    ensures RegisteredTo(g, y, x + 1) == Register(RegisteredTo(g, y, x).value, At(g, Pos(x, y)))
  {
    VisitedInGrid(g, y, x + 1);
    VisitedNext(y, x, Width(g));
    assert Visited(y, x + 1, Width(g))[..|Visited(y, x + 1, Width(g))| - 1] == Visited(y, x, Width(g));
  }

  /// The positions after row `y`, column `x`, in reading order.
  function Remaining(y: nat, x: nat, h: nat, w: nat): seq<Pos>
    requires x <= w
  {
    RowPositions(y, w)[x..] + RowsFrom(y + 1, h, w)
  }

  /// The positions visited and those remaining make up the whole grid.
  lemma VisitedRemaining(y: nat, x: nat, h: nat, w: nat)
    requires y < h && x <= w
    ensures Visited(y, x, w) + Remaining(y, x, h, w) == ReadingOrder(h, w)
  {
    ReadingOrderSplit(y + 1, h, w);
    assert RowPositions(y, w) == RowPositions(y, w)[..x] + RowPositions(y, w)[x..];
  }

  /// A failure part way through is the failure of the whole grid.
  lemma RegisterVisitedFails(g: Grid, y: nat, x: nat)
    requires Rect(g) && y < |g| && x <= Width(g)
    requires RegisteredTo(g, y, x).Failure?
    ensures RegisterAll(g, AllPositions(g)) == RegisteredTo(g, y, x)
  {
    var w := Width(g);
    var all := AllPositions(g);
    var rest := Remaining(y, x, |g|, w);
    VisitedRemaining(y, x, |g|, w);
    assert forall p :: p in rest ==> p in all;
    VisitedInGrid(g, y, x);
    RegisterAllFails(g, Visited(y, x, w), rest);
  }

  // ---------------------------------------------------------------------
  // Start
  // ---------------------------------------------------------------------

  /// The inner loop of `GameState.Start` on row `y`, going on from the hit
  /// points registered for the rows above it.
  method RegisterRow(grid: array2<GridCell>, y: int, hitPoints: HitPoints) returns (r: Result<HitPoints>)
    requires 0 <= y < grid.Length0 && RegisteredTo(Snapshot(grid), y, 0) == Success(hitPoints)
    ensures r.Success? ==> RegisteredTo(Snapshot(grid), y + 1, 0) == r
    ensures r.Failure? ==> RegisterAll(Snapshot(grid), AllPositions(Snapshot(grid))) == r
  {
    ghost var g := Snapshot(grid);
    var current := hitPoints;
    for x := 0 to grid.Length1
      invariant RegisteredTo(g, y, x) == Success(current)
    {
      RegisterVisitedStep(g, y, x);
      var next := Register(current, grid[y, x]);
      if next.Failure? {
        RegisterVisitedFails(g, y, x + 1);
        return next;
      }
      current := next.value;
    }
    assert Visited(y, grid.Length1, Width(g)) == Visited(y + 1, 0, Width(g));
    r := Success(current);
  }

  /// The loops of `GameState.Start`: every elf and goblin, in reading
  /// order, entered with 200 hit points under its id. A unit id seen twice
  /// in a faction makes the dictionary's `Add` throw; that is the failure.
  method RegisterUnits(grid: array2<GridCell>) returns (r: Result<HitPoints>)
    ensures r == RegisterAll(Snapshot(grid), AllPositions(Snapshot(grid)))
  {
    ghost var g := Snapshot(grid);
    var hitPoints := HitPoints(map[], map[]);
    for y := 0 to grid.Length0
      invariant RegisteredTo(g, y, 0) == Success(hitPoints)
    {
      r := RegisterRow(grid, y, hitPoints);
      if r.Failure? {
        return;
      }
      hitPoints := r.value;
    }
    assert AllPositions(g) == Visited(grid.Length0, 0, Width(g));
    r := Success(hitPoints);
  }

  /// `GameState.Start(grid, elfAttackPower)`: computes closeness on the
  /// grid, then registers its units.
  method Start(grid: array2<GridCell>, elfAttackPower: int) returns (r: Result<GameState>)
    requires Valid(Snapshot(grid))
    modifies grid
    ensures Snapshot(grid) == Closeness(old(Snapshot(grid)))
    ensures var registered := RegisterAll(Snapshot(grid), AllPositions(Snapshot(grid)));
      (r.Success? <==> registered.Success?) &&
      (r.Failure? ==> r.error == registered.error) &&
      (r.Success? ==>
        r.value.gridPair.primary == grid && fresh(r.value.gridPair.secondary) &&
        HitPointsOf(r.value) == registered.value && r.value.elfAttackPower == elfAttackPower)
  {
    var gridPair := For(grid);
    CalculateClosenessOfPair(gridPair);
    var hitPoints :- RegisterUnits(grid);
    r := Success(GameState(gridPair, hitPoints.elves, hitPoints.goblins, elfAttackPower));
  }

  // ---------------------------------------------------------------------
  // RemoveItem
  // ---------------------------------------------------------------------

  /// The inner loop of `RemoveItem` on row `y`: each cell replaced by what
  /// `Strip` leaves of it (walls are not written).
  method StripRow(grid: array2<GridCell>, y: int)
    requires 0 <= y < grid.Length0 && forall x :: 0 <= x < grid.Length1 ==> HasIds(grid[y, x])
    modifies grid
    ensures forall yy, xx :: 0 <= yy < grid.Length0 && 0 <= xx < grid.Length1 ==>
      grid[yy, xx] == if yy == y then Strip(old(grid[yy, xx])) else old(grid[yy, xx])
  {
    for x := 0 to grid.Length1
      invariant forall yy, xx :: 0 <= yy < grid.Length0 && 0 <= xx < grid.Length1 ==>
        grid[yy, xx] == if yy == y && xx < x then Strip(old(grid[yy, xx])) else old(grid[yy, xx])
    {
      var cell := grid[y, x];
      if !(cell.isWall || cell.isElf || cell.isGoblin) {
        grid[y, x] := Empty();
      } else if cell.isElf {
        grid[y, x] := Elf(cell.elfId.value);
      } else if cell.isGoblin {
        grid[y, x] := Goblin(cell.goblinId.value);
      }
    }
  }

  /// `RemoveItem(height, width, grid, xy)`: empties the cell at `p`, then
  /// drops the closeness data of every cell, keeping walls and units.
  method RemoveItem(grid: array2<GridCell>, p: Pos)
    requires UnitsHaveIds(Snapshot(grid)) && InGrid(Snapshot(grid), p)
    modifies grid
    ensures Snapshot(grid) == Removed(old(Snapshot(grid)), p)
  {
    ghost var g0 := Snapshot(grid);
    FactoriesMeans(0);
    grid[p.y, p.x] := Empty();
    var height, width := grid.Length0, grid.Length1;
    for y := 0 to height
      invariant forall yy, xx :: 0 <= yy < height && 0 <= xx < width ==>
        grid[yy, xx] == (if yy < y then At(Removed(g0, p), Pos(xx, yy))
                         else if Pos(xx, yy) == p then Empty() else At(g0, Pos(xx, yy)))
    {
      assert forall x :: 0 <= x < width ==> HasIds(grid[y, x]) by {
        forall x | 0 <= x < width ensures HasIds(grid[y, x]) {
          assert InGrid(g0, Pos(x, y));
        }
      }
      StripRow(grid, y);
    }
    GridEquality(Snapshot(grid), Removed(g0, p));
  }

  // ---------------------------------------------------------------------
  // PlayRound
  // ---------------------------------------------------------------------

  /// The inner loop of the first loop of `PlayRound`, on row `y`.
  method CollectRow(grid: array2<GridCell>, y: int, units: seq<Pos>) returns (r: seq<Pos>)
    requires 0 <= y < grid.Length0 && units == UnitsTo(Snapshot(grid), y, 0)
    ensures r == UnitsTo(Snapshot(grid), y + 1, 0)
  {
    ghost var g := Snapshot(grid);
    r := units;
    for x := 0 to grid.Length1
      invariant r == UnitsTo(g, y, x)
    {
      UnitsVisitedStep(g, y, x);
      var cell := grid[y, x];
      if cell.isElf || cell.isGoblin {
        r := r + [Pos(x, y)];
      }
    }
    assert Visited(y, grid.Length1, Width(g)) == Visited(y + 1, 0, Width(g));
  }

  /// The first loop of `PlayRound`: the positions of every elf and goblin,
  /// in reading order.
  method CollectUnits(grid: array2<GridCell>) returns (coordinates: seq<Pos>)
    ensures coordinates == Units(Snapshot(grid))
  {
    ghost var g := Snapshot(grid);
    coordinates := [];
    for y := 0 to grid.Length0
      invariant coordinates == UnitsTo(g, y, 0)
    {
      coordinates := CollectRow(grid, y, coordinates);
    }
    assert AllPositions(g) == Visited(grid.Length0, 0, Width(g));
  }

  /// `grid[q.y, q.x] = c`.
  method SetCell(grid: array2<GridCell>, q: Pos, c: GridCell)
    requires InGrid(Snapshot(grid), q)
    modifies grid
    ensures Snapshot(grid) == Place(old(Snapshot(grid)), q, c)
  {
    ghost var g := Snapshot(grid);
    grid[q.y, q.x] := c;
    GridEquality(Snapshot(grid), Place(g, q, c));
  }

  /// The move of `PlayRound`: `RemoveItem` at `p`, the unit (of faction
  /// `f`, with id `id`) written at `q`, closeness recomputed on the pair.
  method MoveUnit(pair: GridPair, p: Pos, q: Pos, f: Faction, id: int)
    requires Valid(Snapshot(pair.primary)) && InGrid(Snapshot(pair.primary), p)
    requires !At(Snapshot(pair.primary), p).isWall
    requires InGrid(Snapshot(pair.primary), q) && Open(At(Snapshot(pair.primary), q))
    modifies pair.primary
    ensures Snapshot(pair.primary) == MovedGrid(old(Snapshot(pair.primary)), p, q, f, id)
  {
    ghost var g := Snapshot(pair.primary);
    ValidHasIds(g);
    RemovedMeans(g, p);
    RemoveItem(pair.primary, p);
    ghost var g1 := Removed(g, p);
    var cell := if f == Elves then Elf(id) else Goblin(id);
    assert cell == UnitCell(f, id);
    SetCell(pair.primary, q, cell);
    PlaceValid(g1, q, cell);
    ghost var g2 := Place(g1, q, cell);
    CalculateClosenessOfPair(pair);
    assert Snapshot(pair.primary) == Closeness(g2);
  }

  /// The hit of `PlayRound`: the unit of `e` at `t` loses `power` hit
  /// points (`SetItem`) and, at 0 or below, is removed with `RemoveItem`
  /// and closeness recomputed.
  method StrikeUnit(pair: GridPair, hp: HitPoints, t: Pos, e: Faction, power: int)
    returns (newHp: HitPoints)
    requires Consistent(Battle(Snapshot(pair.primary), hp))
    requires InGrid(Snapshot(pair.primary), t) && IsUnit(At(Snapshot(pair.primary), t), e)
    modifies pair.primary
    ensures Battle(Snapshot(pair.primary), newHp) == Strike(Battle(old(Snapshot(pair.primary)), hp), t, e, power)
  {
    ghost var g := Snapshot(pair.primary);
    var cell := pair.primary[t.y, t.x];
    assert WellFormed(At(g, t));
    var id := if e == Elves then cell.elfId.value else cell.goblinId.value;
    var hitPoints := Of(hp, e)[id] - power;
    newHp := With(hp, e, Of(hp, e)[id := hitPoints]);
    if hitPoints <= 0 {
      ValidHasIds(g);
      RemovedMeans(g, t);
      RemoveItem(pair.primary, t);
      CalculateClosenessOfPair(pair);
    }
  }

  /// The attack of `PlayRound` by the unit of `f` at `q`: `FindBest`
  /// picks the target among the neighbours, which is then hit.
  method AttackUnit(pair: GridPair, hp: HitPoints, q: Pos, f: Faction, power: int)
    returns (newHp: HitPoints)
    requires Consistent(Battle(Snapshot(pair.primary), hp))
    requires InGrid(Snapshot(pair.primary), q) && IsUnit(At(Snapshot(pair.primary), q), f)
    modifies pair.primary
    ensures Battle(Snapshot(pair.primary), newHp) == Attack(Battle(old(Snapshot(pair.primary)), hp), q, f, power)
  {
    newHp := hp;
    var target := AttackTarget(Battle(Snapshot(pair.primary), hp), q, f);
    if target.Some? {
      newHp := StrikeUnit(pair, hp, target.value, Enemy(f), power);
    }
  }

  /// The move of the unit at `p`, if `CalculateMove` gives a step; `xy`
  /// is where the unit stands afterwards.
  method MoveStep(pair: GridPair, p: Pos) returns (xy: Pos)
    requires Valid(Snapshot(pair.primary))
    requires InGrid(Snapshot(pair.primary), p) && IsAnyUnit(At(Snapshot(pair.primary), p))
    modifies pair.primary
    ensures var g := old(Snapshot(pair.primary));
      var f := UnitFaction(At(g, p));
      match Destination(g, p)
      case None => xy == p && Snapshot(pair.primary) == g
      case Some(q) => xy == q && Snapshot(pair.primary) == MovedGrid(g, p, q, f, UnitId(g, p, f))
  {
    ghost var g := Snapshot(pair.primary);
    var unitCell := pair.primary[p.y, p.x];
    assert WellFormed(unitCell);
    var f := if unitCell.isElf then Elves else Goblins;
    var destination := Destination(Snapshot(pair.primary), p);
    xy := p;
    if destination.Some? {
      var unitId := if unitCell.isElf then unitCell.elfId.value else unitCell.goblinId.value;
      xy := destination.value;
      MoveUnit(pair, p, xy, f, unitId);
    }
  }

  /// `Act` as its two steps: the move, as a grid, then the attack from
  /// where the unit stands.
  lemma ActSteps(b: Battle, p: Pos, elfAttackPower: int)
    requires Consistent(b) && InGrid(b.grid, p) && IsAnyUnit(At(b.grid, p))
    ensures var f := UnitFaction(At(b.grid, p));
      match Destination(b.grid, p)
      case None => Act(b, p, elfAttackPower) == Attack(b, p, f, Power(f, elfAttackPower))
      case Some(q) =>
        var m := Moved(b, p, q);
        m == Battle(MovedGrid(b.grid, p, q, f, UnitId(b.grid, p, f)), b.hp) &&
        InGrid(m.grid, q) && IsUnit(At(m.grid, q), f) &&
        Act(b, p, elfAttackPower) == Attack(m, q, f, Power(f, elfAttackPower))
  {
  }

  /// The unit at `p` moves if `CalculateMove` gives a step, then attacks
  /// from where it stands.
  method ActUnit(pair: GridPair, hp: HitPoints, p: Pos, elfAttackPower: int)
    returns (newHp: HitPoints)
    requires Consistent(Battle(Snapshot(pair.primary), hp))
    requires InGrid(Snapshot(pair.primary), p) && IsAnyUnit(At(Snapshot(pair.primary), p))
    modifies pair.primary
    ensures Battle(Snapshot(pair.primary), newHp) == Act(Battle(old(Snapshot(pair.primary)), hp), p, elfAttackPower)
  {
    ActSteps(Battle(Snapshot(pair.primary), hp), p, elfAttackPower);
    var f := if pair.primary[p.y, p.x].isElf then Elves else Goblins;
    var xy := MoveStep(pair, p);
    newHp := AttackUnit(pair, hp, xy, f, Power(f, elfAttackPower));
  }

  /// One pass of `PlayRound`'s second loop, for the position `p`: skip a
  /// cell no unit stands on, end the combat when the unit's enemies have no
  /// hit points left, otherwise act.
  method PlayTurn(pair: GridPair, hp: HitPoints, p: Pos, elfAttackPower: int)
    returns (newHp: HitPoints, combatEnds: bool)
    requires Consistent(Battle(Snapshot(pair.primary), hp)) && InGrid(Snapshot(pair.primary), p)
    modifies pair.primary
    ensures (Battle(Snapshot(pair.primary), newHp), combatEnds) ==
      Turn(Battle(old(Snapshot(pair.primary)), hp), p, elfAttackPower)
  {
    var unitCell := pair.primary[p.y, p.x];
    if !(unitCell.isElf || unitCell.isGoblin) {
      return hp, false;
    }
    var f := if unitCell.isElf then Elves else Goblins;
    if !AnyAlive(Of(hp, Enemy(f))) {
      return hp, true;
    }
    newHp := ActUnit(pair, hp, p, elfAttackPower);
    combatEnds := false;
  }

  /// The turns from the `i`-th listed position on: the `i`-th turn, then
  /// the rest unless it ended the combat.
  lemma RoundFromAt(b: Battle, ps: seq<Pos>, i: nat, elfAttackPower: int)
    requires Consistent(b) && i < |ps| && forall p :: p in ps ==> InGrid(b.grid, p)
    ensures InGrid(b.grid, ps[i])
    ensures var t := Turn(b, ps[i], elfAttackPower);
      forall p :: p in ps[i + 1..] ==> InGrid(t.0.grid, p)
    ensures var t := Turn(b, ps[i], elfAttackPower);
      RoundFrom(b, ps[i..], elfAttackPower) == if t.1 then t else RoundFrom(t.0, ps[i + 1..], elfAttackPower)
  {
    assert ps[i] in ps;
    assert ps[i..][1..] == ps[i + 1..];
    assert forall p :: p in ps[i + 1..] ==> p in ps;
  }

  /// The second loop of `PlayRound`: the turns of the units listed in
  /// `coordinates`, in order, until one ends the combat.
  method PlayTurns(pair: GridPair, hp: HitPoints, coordinates: seq<Pos>, elfAttackPower: int)
    returns (newHp: HitPoints, combatEnds: bool)
    requires Consistent(Battle(Snapshot(pair.primary), hp))
    requires forall p :: p in coordinates ==> InGrid(Snapshot(pair.primary), p)
    modifies pair.primary
    ensures (Battle(Snapshot(pair.primary), newHp), combatEnds) ==
      RoundFrom(Battle(old(Snapshot(pair.primary)), hp), coordinates, elfAttackPower)
  {
    ghost var b0 := Battle(Snapshot(pair.primary), hp);
    newHp := hp;
    combatEnds := false;
    var i := 0;
    while i < |coordinates|
      invariant 0 <= i <= |coordinates|
      invariant Consistent(Battle(Snapshot(pair.primary), newHp))
      invariant forall p :: p in coordinates ==> InGrid(Snapshot(pair.primary), p)
      invariant RoundFrom(b0, coordinates, elfAttackPower) ==
        RoundFrom(Battle(Snapshot(pair.primary), newHp), coordinates[i..], elfAttackPower)
    {
      RoundFromAt(Battle(Snapshot(pair.primary), newHp), coordinates, i, elfAttackPower);
      newHp, combatEnds := PlayTurn(pair, newHp, coordinates[i], elfAttackPower);
      if combatEnds {
        return;
      }
      i := i + 1;
    }
  }

  /// `PlayRound()`: every unit on the map at the start of the round, in
  /// reading order, takes its turn until one finds no enemy left. The grid
  /// pair is updated in place; the hit points of the new state are those
  /// after the last turn.
  method PlayRound(s: GameState) returns (next: GameState, combatEnds: bool)
    requires Consistent(BattleOf(s))
    modifies s.gridPair.primary
    ensures next.gridPair == s.gridPair && next.elfAttackPower == s.elfAttackPower
    ensures (BattleOf(next), combatEnds) == Round(old(BattleOf(s)), s.elfAttackPower)
  {
    var coordinates := CollectUnits(s.gridPair.primary);
    UnitsMeans(Snapshot(s.gridPair.primary));
    var hp;
    hp, combatEnds := PlayTurns(s.gridPair, HitPointsOf(s), coordinates, s.elfAttackPower);
    next := GameState(s.gridPair, hp.elves, hp.goblins, s.elfAttackPower);
  }
}
